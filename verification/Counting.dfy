/** Counting and enumerating the satisfying assignments of a node. */
module Counting {
  import opened Table
  import opened Powers
  import CareSet

  /** The levels from a up to but not including b. */
  function Range(a: nat, b: nat): (r: set<nat>)
    ensures forall i: nat :: i in r <==> a <= i < b
    decreases if a < b then b - a else 0
  {
    if a >= b then {} else {a} + Range(a + 1, b)
  }

  /** The satisfying assignments over the variables at level from and below. */
  ghost function Models(t: seq<Node>, n: nat, from: nat): set<Env>
    requires WellFormed(t) && n < |t|
  {
    set env: Env | env <= Range(from, t[0].level) && Eval(t, n, env)
  }

  /** What the recursive counter returns: the assignments over the variables from the node's own
      level down, a skipped level doubling the count. */
  ghost function Count(t: seq<Node>, n: nat): nat
    requires WellFormed(t) && n < |t|
    decreases t[0].level - t[n].level
  {
    if n < 2 then n
    else
      assert InnerOk(t, n);
      Times(Pow2(t[t[n].low].level - t[n].level - 1), Count(t, t[n].low)) +
      Times(Pow2(t[t[n].high].level - t[n].level - 1), Count(t, t[n].high))
  }

  lemma {:induction false} ExtendCount(t: seq<Node>, t': seq<Node>, n: nat)
    requires WellFormed(t) && WellFormed(t') && Extends(t, t') && t[0].level == t'[0].level && n < |t|
    ensures Count(t', n) == Count(t, n)
    decreases t[0].level - t[n].level
  {
    if n >= 2 {
      assert InnerOk(t, n) && InnerOk(t', n);
      ExtendCount(t, t', t[n].low);
      ExtendCount(t, t', t[n].high);
    }
  }

  ghost function AddVar(s: set<Env>, v: nat): set<Env> {
    set env | env in s :: env + {v}
  }

  lemma {:induction false} AddVarSize(s: set<Env>, v: nat)
    requires forall env :: env in s ==> v !in env
    ensures |AddVar(s, v)| == |s|
  {
    hide AddVar;
    if s == {} {
      NothingAdded(v);
    } else {
      var env :| env in s;
      var rest := s - {env};
      AddVarSize(rest, v);
      AddVarPush(rest, env, v);
      OneLess(s, env);
    }
  }

  lemma NothingAdded(v: nat)
    ensures AddVar({}, v) == {}
  {
  }

  lemma OneLess(s: set<Env>, env: Env)
    requires env in s
    ensures (s - {env}) + {env} == s && |s| == |s - {env}| + 1
  {
  }

  lemma AddVarPush(s: set<Env>, env: Env, v: nat)
    requires env !in s && v !in env && forall e :: e in s ==> v !in e
    ensures AddVar(s + {env}, v) == AddVar(s, v) + {env + {v}}
    ensures |AddVar(s + {env}, v)| == |AddVar(s, v)| + 1
  {
    forall e | e in s ensures e + {v} != env + {v} {
      assert e == (e + {v}) - {v} && env == (env + {v}) - {v};
    }
  }

  /** The models split on the first variable: those without it, and those with it. */
  lemma ModelsSplit(t: seq<Node>, n: nat, v: nat, lo: nat, hi: nat)
    requires WellFormed(t) && n < |t| && lo < |t| && hi < |t| && v < t[0].level
    requires v < t[lo].level && v < t[hi].level
    requires forall env :: Eval(t, n, env) == if v in env then Eval(t, hi, env) else Eval(t, lo, env)
    ensures |Models(t, n, v)| == |Models(t, lo, v + 1)| + |Models(t, hi, v + 1)|
  {
    var without, with := Models(t, lo, v + 1), Models(t, hi, v + 1);
    assert Range(v, t[0].level) == {v} + Range(v + 1, t[0].level);
    assert forall env :: env <= Range(v + 1, t[0].level) ==> v !in env;
    forall env: Env
      ensures env in Models(t, n, v) <==> env in without + AddVar(with, v)
    {
      if env in Models(t, n, v) {
        if v in env {
          Above(t, hi, v, env);
          assert (env - {v}) + {v} == env && env - {v} in with;
        } else {
          assert env in without;
        }
      }
      if env in AddVar(with, v) {
        var e :| e in with && e + {v} == env;
        Above(t, hi, v, e);
      }
    }
    assert Models(t, n, v) == without + AddVar(with, v);
    AddVarSize(with, v);
    assert without !! AddVar(with, v);
  }

  lemma CountDoubles(d: nat, models: nat, count: nat)
    requires d > 0 && models == Pow2(d - 1) * count
    ensures models + models == Pow2(d) * count
  {
    assert Pow2(d) * count == (2 * Pow2(d - 1)) * count == 2 * (Pow2(d - 1) * count);
  }

  /** The count, scaled by the levels above the node, is the number of satisfying assignments. */
  lemma {:induction false} CountIsModels(t: seq<Node>, n: nat, from: nat)
    requires WellFormed(t) && n < |t| && from <= t[n].level
    ensures |Models(t, n, from)| == Pow2(t[n].level - from) * Count(t, n)
    decreases t[0].level - from
  {
    LevelBound(t, n);
    if from < t[n].level {
      ModelsSplit(t, n, from, n, n);
      CountIsModels(t, n, from + 1);
      CountDoubles(t[n].level - from, |Models(t, n, from + 1)|, Count(t, n));
    } else {
      CountHere(t, n);
      assert Pow2(0) * Count(t, n) == Count(t, n);
    }
  }

  lemma {:induction false} CountHere(t: seq<Node>, n: nat)
    requires WellFormed(t) && n < |t|
    ensures |Models(t, n, t[n].level)| == Count(t, n)
    decreases t[0].level - t[n].level, 0
  {
    var from := t[n].level;
    LevelBound(t, n);
    if n >= 2 {
      ModelsSplit(t, n, from, t[n].low, t[n].high);
      CountIsModels(t, t[n].low, from + 1);
      CountIsModels(t, t[n].high, from + 1);
    } else {
      assert Range(from, t[0].level) == {};
      var models := Models(t, n, from);
      forall env: Env ensures env in models <==> env == {} && n == 1 {
      }
      assert models == if n == 1 then {{}} else {};
    }
  }

  /** A profile gives each variable the value 0, 1, or -1 for don't care; it stands for a cube. */
  ghost predicate Covers(profile: seq<int>, env: Env) {
    forall i: nat :: i < |profile| ==> (profile[i] == 1 ==> i in env) && (profile[i] == 0 ==> i !in env)
  }

  ghost predicate CoveredBy(profiles: seq<seq<int>>, env: Env) {
    exists k :: 0 <= k < |profiles| && Covers(profiles[k], env)
  }

  /** No assignment is covered twice. */
  ghost predicate Apart(profiles: seq<seq<int>>) {
    forall j, k, env :: 0 <= j < k < |profiles| ==> !(Covers(profiles[j], env) && Covers(profiles[k], env))
  }

  /** Every satisfying assignment is covered by exactly one profile, and no other assignment is. */
  ghost predicate Enumerates(t: seq<Node>, n: nat, profiles: seq<seq<int>>)
    requires WellFormed(t) && n < |t|
  {
    && (forall k :: 0 <= k < |profiles| ==>
          |profiles[k]| == t[0].level && forall v :: 0 <= v < t[0].level ==> -1 <= profiles[k][v] <= 1)
    && (forall env :: Eval(t, n, env) <==> CoveredBy(profiles, env))
    && Apart(profiles)
  }

  /** The profile that starts with prefix, gives the next variable the value b and leaves the rest open. */
  function Prolong(prefix: seq<int>, b: int, size: nat): (p: seq<int>)
    requires |prefix| < size
    ensures |p| == size
  {
    prefix + [b] + seq(size - |prefix| - 1, _ => -1)
  }

  /** The profiles below node n, in the order of the depth-first walk. */
  ghost function Profiles(t: seq<Node>, n: nat, prefix: seq<int>): seq<seq<int>>
    requires WellFormed(t) && n < |t| && |prefix| == t[n].level
    decreases t[0].level - t[n].level
  {
    if n < 2 then if n == 1 then [prefix] else []
    else
      assert InnerOk(t, n);
      Profiles(t, t[n].low, Prolong(prefix, 0, t[t[n].low].level)) +
      Profiles(t, t[n].high, Prolong(prefix, 1, t[t[n].high].level))
  }

  /** Where the two profiles part, the first has 0 and the second has 1. */
  ghost predicate Before(p: seq<int>, q: seq<int>) {
    exists v :: 0 <= v < |p| && v < |q| && PartsAt(p, q, v)
  }

  ghost predicate PartsAt(p: seq<int>, q: seq<int>, v: nat)
    requires v < |p| && v < |q|
  {
    p[..v] == q[..v] && p[v] == 0 && q[v] == 1
  }

  ghost predicate InOrder(profiles: seq<seq<int>>) {
    forall i, j :: 0 <= i < j < |profiles| ==> Before(profiles[i], profiles[j])
  }

  lemma {:induction false} ProfilesStart(t: seq<Node>, n: nat, prefix: seq<int>)
    requires WellFormed(t) && n < |t| && |prefix| == t[n].level
    ensures forall k :: 0 <= k < |Profiles(t, n, prefix)| ==> prefix <= Profiles(t, n, prefix)[k]
    decreases t[0].level - t[n].level
  {
    if n >= 2 {
      LevelBound(t, n);
      ProfilesStart(t, t[n].low, Prolong(prefix, 0, t[t[n].low].level));
      ProfilesStart(t, t[n].high, Prolong(prefix, 1, t[t[n].high].level));
    }
  }

  /** The walk goes to the low child first. */
  lemma {:induction false} ProfilesInOrder(t: seq<Node>, n: nat, prefix: seq<int>)
    requires WellFormed(t) && n < |t| && |prefix| == t[n].level
    ensures InOrder(Profiles(t, n, prefix))
    decreases t[0].level - t[n].level
  {
    if n >= 2 {
      LevelBound(t, n);
      var v, p0, p1 := |prefix|, Prolong(prefix, 0, t[t[n].low].level), Prolong(prefix, 1, t[t[n].high].level);
      ProfilesInOrder(t, t[n].low, p0);
      ProfilesInOrder(t, t[n].high, p1);
      ProfilesStart(t, t[n].low, p0);
      ProfilesStart(t, t[n].high, p1);
      OrderConcat(Profiles(t, t[n].low, p0), Profiles(t, t[n].high, p1), prefix + [0], prefix + [1]);
    }
  }

  lemma OrderConcat(a: seq<seq<int>>, b: seq<seq<int>>, p0: seq<int>, p1: seq<int>)
    requires InOrder(a) && InOrder(b) && |p0| == |p1| > 0 && PartsAt(p0, p1, |p0| - 1)
    requires (forall i :: 0 <= i < |a| ==> p0 <= a[i]) && forall j :: 0 <= j < |b| ==> p1 <= b[j]
    ensures InOrder(a + b)
  {
    var v := |p0| - 1;
    forall i, j | 0 <= i < |a| && 0 <= j < |b| ensures Before(a[i], b[j]) {
      assert a[i][..v] == p0[..v] && b[j][..v] == p1[..v];
      assert PartsAt(a[i], b[j], v);
    }
  }

  lemma CoversProlong(prefix: seq<int>, b: int, size: nat, env: Env)
    requires |prefix| < size && 0 <= b <= 1
    ensures Covers(Prolong(prefix, b, size), env) <==> Covers(prefix, env) && (b == 1 <==> |prefix| in env)
  {
    var p := Prolong(prefix, b, size);
    assert p[|prefix|] == b;
    assert forall i :: 0 <= i < |prefix| ==> p[i] == prefix[i];
    assert forall i :: |prefix| < i < size ==> p[i] == -1;
  }

  lemma CoveredByBoth(a: seq<seq<int>>, b: seq<seq<int>>, env: Env)
    ensures CoveredBy(a + b, env) <==> CoveredBy(a, env) || CoveredBy(b, env)
  {
    if CoveredBy(a, env) {
      var k :| 0 <= k < |a| && Covers(a[k], env);
      assert (a + b)[k] == a[k];
    }
    if CoveredBy(b, env) {
      var k :| 0 <= k < |b| && Covers(b[k], env);
      assert (a + b)[|a| + k] == b[k];
    }
  }

  lemma ApartBoth(a: seq<seq<int>>, b: seq<seq<int>>)
    requires Apart(a) && Apart(b)
    requires forall env :: !(CoveredBy(a, env) && CoveredBy(b, env))
    ensures Apart(a + b)
  {
    forall j, k, env | 0 <= j < k < |a + b| ensures !(Covers((a + b)[j], env) && Covers((a + b)[k], env)) {
      if j < |a| <= k && Covers(a[j], env) && Covers(b[k - |a|], env) {
        assert CoveredBy(a, env) && CoveredBy(b, env);
      }
    }
  }

  /** The walk covers exactly the satisfying assignments that fit the prefix, each of them once. */
  lemma {:induction false} ProfilesExact(t: seq<Node>, n: nat, prefix: seq<int>)
    requires WellFormed(t) && n < |t| && |prefix| == t[n].level
    requires forall i :: 0 <= i < |prefix| ==> -1 <= prefix[i] <= 1
    ensures forall k :: 0 <= k < |Profiles(t, n, prefix)| ==>
      var p := Profiles(t, n, prefix)[k];
      |p| == t[0].level && forall v :: 0 <= v < t[0].level ==> -1 <= p[v] <= 1
    ensures forall env :: CoveredBy(Profiles(t, n, prefix), env) <==> Covers(prefix, env) && Eval(t, n, env)
    ensures Apart(Profiles(t, n, prefix))
    decreases t[0].level - t[n].level
  {
    LevelBound(t, n);
    if n >= 2 {
      var node := t[n];
      var p0, p1 := Prolong(prefix, 0, t[node.low].level), Prolong(prefix, 1, t[node.high].level);
      ProfilesExact(t, node.low, p0);
      ProfilesExact(t, node.high, p1);
      var a, b := Profiles(t, node.low, p0), Profiles(t, node.high, p1);
      forall env
        ensures CoveredBy(a + b, env) <==> Covers(prefix, env) && Eval(t, n, env)
        ensures !(CoveredBy(a, env) && CoveredBy(b, env))
      {
        CoveredByBoth(a, b, env);
        CoversProlong(prefix, 0, t[node.low].level, env);
        CoversProlong(prefix, 1, t[node.high].level, env);
      }
      ApartBoth(a, b);
    } else if n == 1 {
      assert Profiles(t, n, prefix) == [prefix];
      assert forall env :: Covers(prefix, env) ==> CoveredBy([prefix], env) by {
        assert [prefix][0] == prefix;
      }
    }
  }

  /** The number of open variables of a profile, and of the assignments that a list of profiles covers
      when none is covered twice. */
  function Opens(profile: seq<int>): nat {
    if profile == [] then 0
    else (if profile[|profile| - 1] == -1 then 1 else 0) + Opens(profile[..|profile| - 1])
  }

  function Weight(profiles: seq<seq<int>>): nat {
    if profiles == [] then 0
    else Weight(profiles[..|profiles| - 1]) + Pow2(Opens(profiles[|profiles| - 1]))
  }

  lemma {:induction false} WeightBoth(a: seq<seq<int>>, b: seq<seq<int>>)
    ensures Weight(a + b) == Weight(a) + Weight(b)
    decreases |b|
  {
    if b == [] {
      assert a + b == a;
    } else {
      var last := |a + b| - 1;
      assert (a + b)[..last] == a + b[..|b| - 1];
      WeightBoth(a, b[..|b| - 1]);
    }
  }

  lemma {:induction false} OpensProlong(prefix: seq<int>, b: int, size: nat)
    requires |prefix| < size && b != -1
    ensures Opens(Prolong(prefix, b, size)) == Opens(prefix) + (size - |prefix| - 1)
    decreases size
  {
    var p := Prolong(prefix, b, size);
    if size == |prefix| + 1 {
      assert p[..size - 1] == prefix && p[size - 1] == b;
    } else {
      assert p[..size - 1] == Prolong(prefix, b, size - 1);
      OpensProlong(prefix, b, size - 1);
    }
  }

  lemma CountUnfold(t: seq<Node>, n: nat)
    requires WellFormed(t) && 2 <= n < |t|
    ensures InnerOk(t, n)
    ensures Count(t, n) == Share(t, n, t[n].low) + Share(t, n, t[n].high)
  {
    LevelBound(t, n);
  }

  /** What one branch contributes to the count of its parent. */
  ghost function Share(t: seq<Node>, n: nat, child: nat): nat
    requires WellFormed(t) && n < |t| && child < |t| && t[n].level < t[child].level
  {
    Pow2(t[child].level - t[n].level - 1) * Count(t, child)
  }

  /** With more variables every branch, and so every node, counts for more. */
  lemma {:induction false} WidenShare(t: seq<Node>, t': seq<Node>, n: nat, child: nat)
    requires WellFormed(t) && WellFormed(t') && Extends(t, t') && 2 <= n < |t| && child < |t| && t[n].level < t[child].level
    ensures t'[n].level < t'[child].level
    ensures Share(t', n, child) == Pow2(t'[0].level - t[0].level) * Share(t, n, child)
    decreases t[0].level - t[child].level, 1
  {
    hide Pow2, Count;
    var d, skipped := t'[0].level - t[0].level, t[child].level - t[n].level - 1;
    LevelBound(t, child);
    LevelBound(t', child);
    if child < 2 {
      CountConstant(t, child);
      CountConstant(t', child);
      Pow2Add(d, skipped);
      Associate(Pow2(d), Pow2(skipped), child);
    } else {
      WidenCount(t, t', child);
      Swap(Pow2(skipped), Pow2(d), Count(t, child));
    }
  }

  lemma CountConstant(t: seq<Node>, n: nat)
    requires WellFormed(t) && n < 2
    ensures Count(t, n) == n
  {
  }

  lemma Swap(a: nat, b: nat, c: nat)
    ensures a * (b * c) == b * (a * c)
  {
  }

  lemma {:induction false} WidenCount(t: seq<Node>, t': seq<Node>, n: nat)
    requires WellFormed(t) && WellFormed(t') && Extends(t, t') && 2 <= n < |t|
    ensures Count(t', n) == Pow2(t'[0].level - t[0].level) * Count(t, n)
    decreases t[0].level - t[n].level, 0
  {
    hide Pow2, Count, Share;
    CountUnfold(t, n);
    CountUnfold(t', n);
    WidenShare(t, t', n, t[n].low);
    WidenShare(t, t', n, t[n].high);
    Distribute(Pow2(t'[0].level - t[0].level), Share(t, n, t[n].low), Share(t, n, t[n].high));
  }

  /** Each new variable doubles the number of satisfying assignments. */
  lemma WidenModels(t: seq<Node>, t': seq<Node>, n: nat)
    requires WellFormed(t) && WellFormed(t') && Extends(t, t') && n < |t|
    ensures |Models(t', n, 0)| == Pow2(t'[0].level - t[0].level) * |Models(t, n, 0)|
  {
    hide Pow2, Count, Models;
    var d := t'[0].level - t[0].level;
    CountIsModels(t, n, 0);
    CountIsModels(t', n, 0);
    LevelBound(t, n);
    if n < 2 {
      CountConstant(t, n);
      CountConstant(t', n);
      Pow2Add(d, t[0].level);
      Associate(Pow2(d), Pow2(t[0].level), n);
    } else {
      WidenCount(t, t', n);
      Swap(Pow2(t[n].level), Pow2(d), Count(t, n));
    }
  }

  /** A node other than false has a satisfying assignment over the variables. */
  lemma SomeModel(t: seq<Node>, n: nat)
    requires WellFormed(t) && 0 < n < |t|
    ensures |Models(t, n, 0)| > 0
  {
    var env := CareSet.Satisfiable(t, n);
    var inside := env * Range(0, t[0].level);
    Independence(t, n, env, inside);
    assert inside in Models(t, n, 0);
  }

  /** Each branch of the walk contributes its share of the recursive count. */
  lemma {:induction false} WeightIsCount(t: seq<Node>, n: nat, prefix: seq<int>)
    requires WellFormed(t) && n < |t| && |prefix| == t[n].level
    ensures Weight(Profiles(t, n, prefix)) == Pow2(Opens(prefix)) * Count(t, n)
    decreases t[0].level - t[n].level, 0
  {
    hide Pow2, Opens, Prolong;
    if n >= 2 {
      CountUnfold(t, n);
      hide Count;
      WeightOf(t, n, prefix, 0, t[n].low);
      WeightOf(t, n, prefix, 1, t[n].high);
      WeightBoth(Profiles(t, t[n].low, Prolong(prefix, 0, t[t[n].low].level)),
                 Profiles(t, t[n].high, Prolong(prefix, 1, t[t[n].high].level)));
      Distribute(Pow2(Opens(prefix)), Share(t, n, t[n].low), Share(t, n, t[n].high));
    } else if n == 1 {
      assert Profiles(t, n, prefix)[..0] == [];
    }
  }

  lemma {:induction false} WeightOf(t: seq<Node>, n: nat, prefix: seq<int>, b: int, child: nat)
    requires WellFormed(t) && n < |t| && child < |t| && b != -1
    requires |prefix| == t[n].level < t[child].level <= t[0].level
    ensures Weight(Profiles(t, child, Prolong(prefix, b, t[child].level))) == Pow2(Opens(prefix)) * Share(t, n, child)
    decreases t[0].level - t[child].level, 1
  {
    hide WellFormed, Profiles, Opens, Weight, Pow2, Count, Prolong;
    var gap := t[child].level - t[n].level - 1;
    WeightIsCount(t, child, Prolong(prefix, b, t[child].level));
    OpensProlong(prefix, b, t[child].level);
    Pow2Add(Opens(prefix), gap);
    Associate(Pow2(Opens(prefix)), Pow2(gap), Count(t, child));
  }
}
