/** How far the analyzer can be trusted when it is given a list of rules whose ids are not distinct.  No list
    that is loaded from a file is of this kind. */
module Silence {
  import opened Table
  import opened Meaning
  import opened Quantification
  import opened Substitution
  import opened Kernel
  import opened Policy
  import opened Analyzer
  import opened Options
  import BvecOps

  ghost predicate CarryIds(rules: seq<Rule>, ids: seq<int>) {
    |rules| == |ids| && forall i :: 0 <= i < |ids| ==> rules[i].id == ids[i]
  }

  /** If rule n is not reported, and not skipped, its packets get its action. */
  ghost predicate SilenceHolds(t: seq<Node>, rules: seq<Rule>, n: nat)
    requires WellFormed(t) && ValidRules(t, rules) && n < |rules|
  {
    var rows := Rows(t, rules);
    !Skipped(rows, n) && (forall a :: a in Reports(rows, |rows|) ==> a.rule != n) ==>
      forall p :: p in rows[n].packets ==> Decision(rows, p) == Some(rows[n].action)
  }

  /** Rules over three nodes: rule i denies a part of what rule n allows, the others match nothing of it. */
  function MisleadingRules(ids: seq<int>, i: nat, n: nat, denied: nat, mine: nat, other: nat): (rules: seq<Rule>)
    ensures CarryIds(rules, ids)
    ensures forall k :: 0 <= k < |ids| ==> rules[k].packets == if k == i then denied else if k == n then mine else other
  {
    seq(|ids|, k requires 0 <= k < |ids| =>
      if k == i then Rule(ids[k], true, Deny, denied)
      else if k == n then Rule(ids[k], true, Allow, mine)
      else Rule(ids[k], true, Allow, other))
  }

  /** The three nodes: some of mine is denied, some is not, and other is something else. */
  ghost predicate AreParts(t: seq<Node>, denied: nat, mine: nat, other: nat)
    requires WellFormed(t)
  {
    && denied < |t| && mine < |t| && other < |t|
    && Den(t, mine) !! Den(t, other) && Den(t, other) != iset{}
    && Den(t, denied) < Den(t, mine) && Den(t, denied) != iset{}
  }

  lemma MisleadingFails(t: seq<Node>, ids: seq<int>, i: nat, j: nat, n: nat, denied: nat, mine: nat, other: nat)
    requires WellFormed(t) && AreParts(t, denied, mine, other)
    requires i < j < n < |ids| && ids[i] == ids[j] != ids[n]
    ensures ValidRules(t, MisleadingRules(ids, i, n, denied, mine, other))
    ensures !SilenceHolds(t, MisleadingRules(ids, i, n, denied, mine, other), n)
  {
    var rules := MisleadingRules(ids, i, n, denied, mine, other);
    var rows := Rows(t, rules);
    assert rows == Misleading(ids, i, n, Den(t, denied), Den(t, mine), Den(t, other));
    var d :| d in Den(t, denied);
    var a :| a in Den(t, mine) && a !in Den(t, denied);
    SilenceFails(ids, i, j, n, Den(t, denied), Den(t, mine), Den(t, other), d, a);
    ReportsExactly(rows, |rows|);
    assert !Skipped(rows, n);
    forall x | x in Reports(rows, |rows|) ensures x.rule != n {
    }
  }

  /** A table with the nodes of x0, its negation, x1, and the conjunction of x0 and x1. */
  const WITNESS: seq<Node> := [Node(2, 0, 0), Node(2, 1, 1), Node(1, 0, 1), Node(0, 0, 1), Node(0, 1, 0), Node(0, 0, 2)]

  lemma WitnessParts()
    ensures WellFormed(WITNESS) && AreParts(WITNESS, 5, 3, 4)
  {
    var t := WITNESS;
    assert WellFormed(t) by {
      assert InnerOk(t, 2) && InnerOk(t, 3) && InnerOk(t, 4) && InnerOk(t, 5);
    }
    PartsOfVariables(t, 3, 4, 2, 5);
  }

  /** The conjunction of two variables, the first of them and its negation are such parts. */
  lemma PartsOfVariables(t: seq<Node>, x0: nat, not0: nat, x1: nat, both: nat)
    requires WellFormed(t) && t[0].level >= 2
    requires IsVar(t, 0, x0) && IsNegatedVar(t, 0, not0) && IsVar(t, 1, x1) && IsApply(t, AND, x0, x1, both)
    ensures AreParts(t, both, x0, not0)
  {
    forall env: Env
      ensures env in Den(t, x0) <==> 0 in env
      ensures env in Den(t, not0) <==> 0 !in env
      ensures env in Den(t, both) <==> 0 in env && 1 in env
    {
      VarMeaning(t, 0, x0, env);
      VarMeaning(t, 1, x1, env);
    }
    var none: Env, first: Env, second: Env := {}, {0}, {0, 1};
    assert 0 !in none && 0 in first && 1 !in first && 0 in second && 1 in second;
    assert none in Den(t, not0) && first in Den(t, x0) && first !in Den(t, both) && second in Den(t, both);
  }

  /** Exactly when silence about rule n is to be trusted, whatever nodes the rules have: when no two rules
      before it share an id other than its own. */
  lemma SilenceIff(ids: seq<int>, n: nat)
    requires n < |ids|
    ensures (forall t, rules :: WellFormed(t) && ValidRules(t, rules) && CarryIds(rules, ids) ==> SilenceHolds(t, rules, n)) <==>
            (forall i, j :: 0 <= i < j < n && ids[i] == ids[j] ==> ids[i] == ids[n])
  {
    if forall i, j :: 0 <= i < j < n && ids[i] == ids[j] ==> ids[i] == ids[n] {
      forall t, rules | WellFormed(t) && ValidRules(t, rules) && CarryIds(rules, ids) ensures SilenceHolds(t, rules, n) {
        SilenceHoldsWithIds(t, rules, ids, n);
      }
    } else {
      var i, j :| 0 <= i < j < n && ids[i] == ids[j] && ids[i] != ids[n];
      WitnessParts();
      MisleadingFails(WITNESS, ids, i, j, n, 5, 3, 4);
      assert CarryIds(MisleadingRules(ids, i, n, 5, 3, 4), ids);
    }
  }

  lemma SilenceHoldsWithIds(t: seq<Node>, rules: seq<Rule>, ids: seq<int>, n: nat)
    requires WellFormed(t) && ValidRules(t, rules) && CarryIds(rules, ids) && n < |ids|
    requires forall i, j :: 0 <= i < j < n && ids[i] == ids[j] ==> ids[i] == ids[n]
    ensures SilenceHolds(t, rules, n)
  {
    var rows := Rows(t, rules);
    if !Skipped(rows, n) && (forall a :: a in Reports(rows, |rows|) ==> a.rule != n) {
      forall p | p in rows[n].packets ensures Decision(rows, p) == Some(rows[n].action) {
        SilentRule(rows, n, p);
      }
    }
  }

  /** Every kernel with two variables can build such rules. */
  method SharedIdMisleads(k: Kernel, ids: seq<int>, i: nat, j: nat, n: nat) returns (rules: seq<Rule>)
    requires k.Valid() && k.varnum >= 2 && i < j < n < |ids| && ids[i] == ids[j] != ids[n]
    modifies k
    ensures k.Valid() && k.Kept()
    ensures CarryIds(rules, ids) && ValidRules(k.nodes, rules) && !SilenceHolds(k.nodes, rules, n)
  {
    hide k.Valid, WellFormed, Eval, IsApply, AreParts, SilenceHolds, Rows;
    var x0, err := k.IthVar(0);
    var not0;
    not0, err := k.NithVar(0);
    var x1;
    x1, err := k.IthVar(1);
    ghost var t := k.nodes;
    VariablesLevel(k);
    KeptVariables(t, t, x0, not0, x1);
    var both := BvecOps.Gate(k, x0, x1, AND);
    KeptVariables(t, k.nodes, x0, not0, x1);
    PartsOfVariables(k.nodes, x0, not0, x1, both);
    rules := MisleadingRules(ids, i, n, both, x0, not0);
    MisleadingFails(k.nodes, ids, i, j, n, both, x0, not0);
  }

  lemma VariablesLevel(k: Kernel)
    requires k.Valid()
    ensures |k.nodes| >= 2 && k.varnum <= k.nodes[0].level
  {
  }

  lemma KeptVariables(t: seq<Node>, t': seq<Node>, x0: nat, not0: nat, x1: nat)
    requires WellFormed(t) && WellFormed(t') && t <= t'
    requires IsVar(t, 0, x0) && IsNegatedVar(t, 0, not0) && IsVar(t, 1, x1)
    ensures x0 < |t| && x1 < |t|
    ensures IsVar(t', 0, x0) && IsNegatedVar(t', 0, not0) && IsVar(t', 1, x1)
  {
    ExtendAll(t, t');
  }
}
