/** The shared node table of the BDD package, as a value.

    A node is named by its index.  Indices 0 and 1 are the constants false and true; they sit at the
    level just below the last variable, so the number of variables is the level of node 0.
    An assignment is the set of variables that are true.  The variable order is fixed, and a
    variable is named by its level. */
module Table {

  datatype Node = Node(level: nat, low: nat, high: nat)

  type Env = set<nat>

  /** Ordered, reduced, closed under children, and without duplicate nodes. */
  ghost predicate WellFormed(t: seq<Node>) {
    && |t| >= 2
    && t[0] == Node(t[0].level, 0, 0)
    && t[1] == Node(t[0].level, 1, 1)
    && (forall i :: 2 <= i < |t| ==> InnerOk(t, i))
    && (forall i, j :: 2 <= i < j < |t| ==> t[i] != t[j])
  }

  ghost predicate InnerOk(t: seq<Node>, i: nat)
    requires |t| >= 2 && i < |t|
  {
    && t[i].low < |t| && t[i].high < |t|
    && t[i].low != t[i].high
    && t[i].level < t[t[i].low].level <= t[0].level
    && t[i].level < t[t[i].high].level <= t[0].level
  }

  /** The Boolean function that node n stands for. */
  ghost predicate Eval(t: seq<Node>, n: nat, env: Env)
    requires WellFormed(t) && n < |t|
    decreases t[0].level - t[n].level
  {
    if n < 2 then n == 1
    else
      assert InnerOk(t, n);
      if t[n].level in env then Eval(t, t[n].high, env) else Eval(t, t[n].low, env)
  }

  ghost predicate Same(t: seq<Node>, a: nat, b: nat)
    requires WellFormed(t) && a < |t| && b < |t|
  {
    forall env :: Eval(t, a, env) == Eval(t, b, env)
  }

  ghost predicate Agree(e1: Env, e2: Env, from: nat, to: nat) {
    forall v :: from <= v < to ==> (v in e1 <==> v in e2)
  }

  /** A node depends on no variable above its own level. */
  lemma {:induction false} Independence(t: seq<Node>, n: nat, e1: Env, e2: Env)
    requires WellFormed(t) && n < |t|
    requires Agree(e1, e2, t[n].level, t[0].level)
    ensures Eval(t, n, e1) == Eval(t, n, e2)
    decreases t[0].level - t[n].level
  {
    if n >= 2 {
      assert InnerOk(t, n);
      Independence(t, t[n].low, e1, e2);
      Independence(t, t[n].high, e1, e2);
    }
  }

  /** Setting a variable above a node, either way, does not change the node's value. */
  lemma Above(t: seq<Node>, n: nat, v: nat, env: Env)
    requires WellFormed(t) && n < |t| && v < t[n].level
    ensures Eval(t, n, env + {v}) == Eval(t, n, env) == Eval(t, n, env - {v})
  {
    Independence(t, n, env + {v}, env);
    Independence(t, n, env - {v}, env);
  }

  /** Table t' has the nodes of t, and perhaps more nodes and more variables. */
  ghost predicate Extends(t: seq<Node>, t': seq<Node>) {
    && |t| <= |t'|
    && (|t| >= 2 ==> t[0].level <= t'[0].level)
    && forall i :: 2 <= i < |t| ==> t'[i] == t[i]
  }

  /** Growing the table changes no existing function. */
  lemma {:induction false} ExtendEval(t: seq<Node>, t': seq<Node>, n: nat, env: Env)
    requires WellFormed(t) && WellFormed(t') && Extends(t, t') && n < |t|
    ensures Eval(t', n, env) == Eval(t, n, env)
    decreases t[0].level - t[n].level
  {
    if n >= 2 {
      assert InnerOk(t, n) && InnerOk(t', n);
      ExtendEval(t, t', t[n].low, env);
      ExtendEval(t, t', t[n].high, env);
    }
  }

  lemma ExtendAll(t: seq<Node>, t': seq<Node>)
    requires WellFormed(t) && WellFormed(t') && Extends(t, t')
    ensures forall n: nat, env :: n < |t| ==> Eval(t', n, env) == Eval(t, n, env)
  {
    forall n: nat, env | n < |t| ensures Eval(t', n, env) == Eval(t, n, env) {
      ExtendEval(t, t', n, env);
    }
  }

  /** Nor does it turn the order of two nodes round. */
  lemma ExtendLevels(t: seq<Node>, t': seq<Node>, a: nat, b: nat)
    requires WellFormed(t) && WellFormed(t') && Extends(t, t') && a < |t| && b < |t|
    ensures t[a].level <= t[b].level ==> t'[a].level <= t'[b].level
  {
    LevelBound(t, a);
    LevelBound(t, b);
    LevelBound(t', a);
  }

  /** Canonicity: two nodes are the same node exactly when they stand for the same function. */
  lemma {:induction false} Canonical(t: seq<Node>, a: nat, b: nat)
    requires WellFormed(t) && a < |t| && b < |t|
    ensures a == b <==> Same(t, a, b)
    decreases 2 * t[0].level - t[a].level - t[b].level
  {
    LevelBound(t, a);
    LevelBound(t, b);
    if Same(t, a, b) {
      if a < 2 && b < 2 {
        assert Eval(t, a, {}) == Eval(t, b, {});
      } else if t[a].level == t[b].level {
        SameChildren(t, a, b);
        Canonical(t, t[a].low, t[b].low);
        Canonical(t, t[a].high, t[b].high);
      } else if t[a].level < t[b].level {
        SkippedLevel(t, a, b);
        Canonical(t, t[a].low, b);
        Canonical(t, t[a].high, b);
        assert false;
      } else {
        SkippedLevel(t, b, a);
        Canonical(t, a, t[b].low);
        Canonical(t, a, t[b].high);
        assert false;
      }
    }
  }

  lemma LevelBound(t: seq<Node>, n: nat)
    requires WellFormed(t) && n < |t|
    ensures t[n].level <= t[0].level
    ensures n < 2 <==> t[n].level == t[0].level
    ensures n >= 2 ==> InnerOk(t, n)
  {
    if n >= 2 {
      assert InnerOk(t, n);
    }
  }

  lemma Constants(t: seq<Node>)
    requires WellFormed(t)
    ensures |t| >= 2 && t[0].level == t[1].level
    ensures forall env :: !Eval(t, 0, env) && Eval(t, 1, env)
  {
  }

  lemma SameChildren(t: seq<Node>, a: nat, b: nat)
    requires WellFormed(t) && 2 <= a < |t| && 2 <= b < |t|
    requires t[a].level == t[b].level && Same(t, a, b)
    ensures InnerOk(t, a) && InnerOk(t, b)
    ensures Same(t, t[a].low, t[b].low) && Same(t, t[a].high, t[b].high)
  {
    assert InnerOk(t, a) && InnerOk(t, b);
    var v := t[a].level;
    forall env
      ensures Eval(t, t[a].low, env) == Eval(t, t[b].low, env)
      ensures Eval(t, t[a].high, env) == Eval(t, t[b].high, env)
    {
      Above(t, t[a].low, v, env);
      Above(t, t[b].low, v, env);
      Above(t, t[a].high, v, env);
      Above(t, t[b].high, v, env);
      assert Eval(t, a, env - {v}) == Eval(t, b, env - {v});
      assert Eval(t, a, env + {v}) == Eval(t, b, env + {v});
    }
  }

  lemma SkippedLevel(t: seq<Node>, a: nat, b: nat)
    requires WellFormed(t) && 2 <= a < |t| && b < |t|
    requires t[a].level < t[b].level && Same(t, a, b)
    ensures InnerOk(t, a)
    ensures Same(t, t[a].low, b) && Same(t, t[a].high, b)
  {
    assert InnerOk(t, a);
    var v := t[a].level;
    forall env
      ensures Eval(t, t[a].low, env) == Eval(t, b, env)
      ensures Eval(t, t[a].high, env) == Eval(t, b, env)
    {
      Above(t, t[a].low, v, env);
      Above(t, t[a].high, v, env);
      Above(t, b, v, env);
      assert Eval(t, a, env - {v}) == Eval(t, b, env - {v});
      assert Eval(t, a, env + {v}) == Eval(t, b, env + {v});
    }
  }
}
