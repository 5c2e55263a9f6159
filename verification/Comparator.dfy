/** The comparison of two rule lists, which computes what each allows and denies in a way of its own. */
module Comparator {
  import opened Table
  import opened Quantification
  import opened Kernel
  import opened Mnodes
  import opened Policy
  import opened Analyzer
  import opened Options

  /** The rules that are in force, in order. */
  function Enabled(rules: seq<Rule>): (acl: seq<Rule>) {
    if rules == [] then []
    else
      var rest := Enabled(rules[..|rules| - 1]);
      if rules[|rules| - 1].enabled then rest + [rules[|rules| - 1]] else rest
  }

  lemma {:induction false} EnabledValid(t: seq<Node>, rules: seq<Rule>)
    requires ValidRules(t, rules)
    ensures ValidRules(t, Enabled(rules))
    ensures forall rule :: rule in Enabled(rules) <==> rule in rules && rule.enabled
  {
    if rules != [] {
      EnabledValid(t, rules[..|rules| - 1]);
      assert rules == rules[..|rules| - 1] + [rules[|rules| - 1]];
    }
  }

  /** Firewall::acl. */
  method Acl(rules: seq<Rule>) returns (acl: seq<Rule>)
    ensures acl == Enabled(rules)
  {
    acl := [];
    for i := 0 to |rules|
      invariant acl == Enabled(rules[..i])
    {
      assert rules[..i + 1][..i] == rules[..i];
      if rules[i].enabled {
        acl := acl + [rules[i]];
      }
    }
    assert rules[..|rules|] == rules;
  }

  /** allowed and denied are what the enabled rules decide. */
  ghost predicate Computed(t: seq<Node>, rules: seq<Rule>, allowed: nat, denied: nat)
    requires WellFormed(t)
  {
    && ValidRules(t, Enabled(rules)) && allowed < |t| && denied < |t|
    && Den(t, allowed) == Decided(Rows(t, Enabled(rules)), Allow)
    && Den(t, denied) == Decided(Rows(t, Enabled(rules)), Deny)
  }

  lemma ExtendComputed(t: seq<Node>, t': seq<Node>, rules: seq<Rule>, allowed: nat, denied: nat)
    requires WellFormed(t) && WellFormed(t') && t <= t' && Computed(t, rules, allowed, denied)
    ensures Computed(t', rules, allowed, denied)
    ensures Rows(t', Enabled(rules)) == Rows(t, Enabled(rules))
  {
    ExtendDen(t, t');
    ExtendRows(t, t', Enabled(rules));
  }

  /** Taking away what the opposite action has already got is the same as taking what is left. */
  lemma DifferenceStep(t: seq<Node>, rules: seq<Rule>, rule: Rule, set': Packets)
    requires WellFormed(t) && ValidRules(t, Enabled(rules)) && rule.packets < |t| && rule.enabled
    requires var rows := Rows(t, Enabled(rules));
      set' == Decided(rows, rule.action) + (Den(t, rule.packets) - Decided(rows, Opposite(rule.action)))
    ensures ValidRules(t, Enabled(rules + [rule]))
    ensures var rows' := Rows(t, Enabled(rules + [rule]));
      Decided(rows', rule.action) == set' &&
      Decided(rows', Opposite(rule.action)) == Decided(Rows(t, Enabled(rules)), Opposite(rule.action))
  {
    var rows := Rows(t, Enabled(rules));
    assert (rules + [rule])[..|rules|] == rules;
    assert Enabled(rules + [rule]) == Enabled(rules) + [rule];
    var row := Row(rule.id, rule.action, Den(t, rule.packets));
    assert Rows(t, Enabled(rules + [rule])) == rows + [row];
    OneMore(rows, row);
    forall p: Env ensures p in set' <==> p in Decided(rows + [row], rule.action) {
      DecisionPush(rows, row, p);
      EitherAction(Decision(rows, p), rule.action);
    }
  }

  /** PolicyListComparator::compute_bdd. */
  method ComputeBdd(k: Kernel, rules: seq<Rule>) returns (allowed: nat, denied: nat)
    requires k.Valid() && ValidRules(k.nodes, rules)
    modifies k
    ensures k.Valid() && k.Kept()
    ensures Computed(k.nodes, rules, allowed, denied)
  {
    hide k.Valid, WellFormed, Computed;
    allowed, denied := 0, 0;
    assert rules[..0] == [];
    NothingComputed(k.nodes);
    for i := 0 to |rules|
      invariant k.Valid() && k.Kept() && ValidRules(k.nodes, rules)
      invariant Computed(k.nodes, rules[..i], allowed, denied)
    {
      assert rules[..i + 1] == rules[..i] + [rules[i]];
      allowed, denied := Take(k, rules[..i], rules[i], allowed, denied);
    }
    assert rules[..|rules|] == rules;
  }

  lemma NothingComputed(t: seq<Node>)
    requires WellFormed(t)
    ensures Computed(t, [], 0, 0)
  {
    ConstantSets(t);
    NothingDecided();
  }

  method Take(k: Kernel, ghost before: seq<Rule>, rule: Rule, allowed: nat, denied: nat) returns (allowed': nat, denied': nat)
    requires k.Valid() && rule.packets < |k.nodes|
    requires Computed(k.nodes, before, allowed, denied)
    modifies k
    ensures k.Valid() && k.Kept()
    ensures Computed(k.nodes, before + [rule], allowed', denied')
  {
    hide k.Valid, WellFormed, Decided, Rows, Enabled;
    ghost var t := k.nodes;
    allowed', denied' := allowed, denied;
    if !rule.enabled {
      DisabledStep(before, rule);
      return;
    }
    if rule.action == Allow {
      var rest := Minus(k, rule.packets, denied);
      allowed' := Or(k, allowed, rest);
    } else {
      var rest := Minus(k, rule.packets, allowed);
      denied' := Or(k, denied, rest);
    }
    ExtendComputed(t, k.nodes, before, allowed, denied);
    DifferenceStep(k.nodes, before, rule, Den(k.nodes, if rule.action == Allow then allowed' else denied'));
  }

  lemma DisabledStep(before: seq<Rule>, rule: Rule)
    requires !rule.enabled
    ensures Enabled(before + [rule]) == Enabled(before)
  {
    assert (before + [rule])[..|before|] == before;
  }

  /** The first list gives the packet the action, and the second does not; or both do. */
  ghost predicate Only(rows1: seq<Row>, rows2: seq<Row>, action: RuleAction, p: Env) {
    Decision(rows1, p) == Some(action) && Decision(rows2, p) != Some(action)
  }

  ghost predicate Both(rows1: seq<Row>, rows2: seq<Row>, action: RuleAction, p: Env) {
    Decision(rows1, p) == Some(action) && Decision(rows2, p) == Some(action)
  }

  /** What a relation between two lists says about the packets to which they give the action. */
  ghost predicate ListsRelated(relation: MnodeRelationship, rows1: seq<Row>, rows2: seq<Row>, action: RuleAction) {
    var only1, only2 := exists p :: Only(rows1, rows2, action, p), exists p :: Only(rows2, rows1, action, p);
    match relation
    case Equal => !only1 && !only2
    case Subset => !only1 && only2
    case Superset => only1 && !only2
    case Disjoint => only1 && only2 && !exists p :: Both(rows1, rows2, action, p)
    case Overlap => only1 && only2 && exists p :: Both(rows1, rows2, action, p)
  }

  lemma ListRelation(rows1: seq<Row>, rows2: seq<Row>, action: RuleAction, relation: MnodeRelationship)
    ensures Relation(Decided(rows1, action), Decided(rows2, action)) == relation <==>
      ListsRelated(relation, rows1, rows2, action)
  {
    var a, b := Decided(rows1, action), Decided(rows2, action);
    RelationMeans(a, b, relation);
    forall p
      ensures Only(rows1, rows2, action, p) <==> p in a && p !in b
      ensures Only(rows2, rows1, action, p) <==> p in b && p !in a
      ensures Both(rows1, rows2, action, p) <==> p in a && p in b
    {
    }
    hide Only, Both, Decided, Relation;
    ExistsBoth(rows1, rows2, action);
  }

  lemma ExistsBoth(rows1: seq<Row>, rows2: seq<Row>, action: RuleAction)
    ensures (exists p :: Both(rows1, rows2, action, p)) <==> !(Decided(rows1, action) !! Decided(rows2, action))
    ensures (exists p :: Both(rows1, rows2, action, p)) <==> exists p :: p in Decided(rows1, action) && p in Decided(rows2, action)
  {
    if p :| Both(rows1, rows2, action, p) {
      assert p in Decided(rows1, action) && p in Decided(rows2, action);
    } else {
      forall p ensures !(p in Decided(rows1, action) && p in Decided(rows2, action)) {
        assert !Both(rows1, rows2, action, p);
      }
    }
  }

  datatype PolicylistRelationShip = PolicylistRelationShip(allowed: MnodeRelationship, denied: MnodeRelationship)

  /** PolicyListComparator::compare.  Equal twice means that no packet is treated differently. */
  method CompareLists(k: Kernel, rules1: seq<Rule>, rules2: seq<Rule>) returns (relations: PolicylistRelationShip)
    requires k.Valid() && ValidRules(k.nodes, rules1) && ValidRules(k.nodes, rules2)
    modifies k
    ensures k.Valid() && k.Kept()
    ensures ValidRules(k.nodes, Enabled(rules1)) && ValidRules(k.nodes, Enabled(rules2))
    ensures var rows1, rows2 := Rows(k.nodes, Enabled(rules1)), Rows(k.nodes, Enabled(rules2));
      && relations.allowed == Relation(Decided(rows1, Allow), Decided(rows2, Allow))
      && relations.denied == Relation(Decided(rows1, Deny), Decided(rows2, Deny))
      && (forall r :: relations.allowed == r <==> ListsRelated(r, rows1, rows2, Allow))
      && (forall r :: relations.denied == r <==> ListsRelated(r, rows1, rows2, Deny))
      && (relations == PolicylistRelationShip(Equal, Equal) <==> SameDecisions(rows1, rows2))
  {
    hide k.Valid, WellFormed, Decided, Rows, Enabled, Relation, SameDecisions, ListsRelated, Related;
    var allowed1, denied1 := ComputeBdd(k, rules1);
    ghost var t1 := k.nodes;
    var allowed2, denied2 := ComputeBdd(k, rules2);
    ghost var t2 := k.nodes;
    ExtendComputed(t1, t2, rules1, allowed1, denied1);
    var allowed := Compare(k, allowed1, allowed2);
    ghost var t3 := k.nodes;
    ExtendComputed(t2, t3, rules1, allowed1, denied1);
    ExtendComputed(t2, t3, rules2, allowed2, denied2);
    var denied := Compare(k, denied1, denied2);
    ExtendComputed(t3, k.nodes, rules1, allowed1, denied1);
    ExtendComputed(t3, k.nodes, rules2, allowed2, denied2);
    relations := PolicylistRelationShip(allowed, denied);
    SameDecisionsIff(Rows(k.nodes, Enabled(rules1)), Rows(k.nodes, Enabled(rules2)));
    forall r
      ensures relations.allowed == r <==> ListsRelated(r, Rows(k.nodes, Enabled(rules1)), Rows(k.nodes, Enabled(rules2)), Allow)
      ensures relations.denied == r <==> ListsRelated(r, Rows(k.nodes, Enabled(rules1)), Rows(k.nodes, Enabled(rules2)), Deny)
    {
      ListRelation(Rows(k.nodes, Enabled(rules1)), Rows(k.nodes, Enabled(rules2)), Allow, r);
      ListRelation(Rows(k.nodes, Enabled(rules1)), Rows(k.nodes, Enabled(rules2)), Deny, r);
    }
    EqualMeans(Decided(Rows(k.nodes, Enabled(rules1)), Allow), Decided(Rows(k.nodes, Enabled(rules2)), Allow));
    EqualMeans(Decided(Rows(k.nodes, Enabled(rules1)), Deny), Decided(Rows(k.nodes, Enabled(rules2)), Deny));
  }

  lemma EqualMeans(a: Packets, b: Packets)
    ensures Relation(a, b) == Equal <==> a == b
  {
  }

  /** Both ways of computing the policy end in the same nodes. */
  method SameNodes(k: Kernel, rules: seq<Rule>) returns (state: State, allowed: nat, denied: nat)
    requires k.Valid() && ValidRules(k.nodes, rules)
    modifies k
    ensures k.Valid() && k.Kept()
    ensures allowed == state.accepted && denied == state.denied
  {
    hide k.Valid, WellFormed, Decided, Enabled;
    EnabledValid(k.nodes, rules);
    var acl := Acl(rules);
    ghost var t, rows := k.nodes, Rows(k.nodes, acl);
    state := new State(k);
    assert rows[..0] == [];
    for n := 0 to |acl|
      invariant k.Valid() && k.Kept() && ValidRules(k.nodes, acl) && ValidRules(k.nodes, rules)
      invariant rows == Rows(k.nodes, acl) && state.Reflects(k.nodes, rows[..n])
    {
      ghost var t1 := k.nodes;
      state.Update(k, acl[n].action, acl[n].packets, rows[..n], acl[n].id);
      ExtendRows(t1, k.nodes, acl);
      assert rows[..n + 1] == rows[..n] + [rows[n]];
    }
    assert rows[..|acl|] == rows;
    ghost var t2 := k.nodes;
    allowed, denied := ComputeBdd(k, rules);
    ExtendRows(t2, k.nodes, acl);
    ExtendDen(t2, k.nodes);
    SameSet(k.nodes, allowed, state.accepted);
    SameSet(k.nodes, denied, state.denied);
  }
}
