/** When the expansion of a pool fails, and in what order it delivers otherwise. */
module PoolCycles {
  import opened Resolver

  /** A walk through the pools, each a member of the one before. */
  ghost predicate IsWalk(d: Dictionary, walk: seq<string>) {
    && |walk| > 0 && walk[0] in d.pools
    && forall i :: 0 <= i < |walk| - 1 ==> Contains(d, walk[i], walk[i + 1])
  }

  ghost predicate Contains(d: Dictionary, p: string, name: string) {
    p in d.pools && name in d.pools[p] && IsPool(d, name)
  }

  /** Some walk from the root meets a pool twice. */
  ghost predicate CycleReachable(d: Dictionary, root: string) {
    exists walk :: IsWalk(d, walk) && walk[0] == root && Repeats(walk)
  }

  ghost predicate Repeats(walk: seq<string>) {
    exists i, j :: 0 <= i < j < |walk| && walk[i] == walk[j]
  }

  lemma ExtendWalk(d: Dictionary, walk: seq<string>, name: string)
    requires IsWalk(d, walk) && Contains(d, walk[|walk| - 1], name)
    ensures IsWalk(d, walk + [name])
  {
    forall i | 0 <= i < |walk| ensures Contains(d, (walk + [name])[i], (walk + [name])[i + 1]) {
    }
  }

  /** A failure shows a walk that meets a pool of the path again. */
  lemma {:induction false} LoopIsCycle(d: Dictionary, path: set<string>, p: string, i: nat, walk: seq<string>)
    requires p in d.pools && i <= |d.pools[p]| && Expand(d, path, p, i).Loop?
    requires IsWalk(d, walk) && walk[|walk| - 1] == p
    requires forall name :: name in path ==> name in walk
    ensures CycleReachable(d, walk[0])
    decreases d.pools.Keys - path, |d.pools[p]| - i
  {
    var name := d.pools[p][i];
    if IsPool(d, name) {
      var longer := walk + [name];
      ExtendWalk(d, walk, name);
      if name in path {
        var k :| 0 <= k < |walk| && walk[k] == name;
        assert longer[k] == longer[|walk|];
        assert Repeats(longer);
      } else {
        assert name in d.pools.Keys - path;
        if Expand(d, path + {name}, name, 0).Loop? {
          LoopIsCycle(d, path + {name}, name, 0, longer);
        } else {
          LoopIsCycle(d, path, p, i + 1, walk);
        }
      }
    } else {
      LoopIsCycle(d, path, p, i + 1, walk);
    }
  }

  /** Success on a pool means success on each pool in it, none of which is on the path. */
  lemma {:induction false} DoneBelow(d: Dictionary, path: set<string>, p: string, i: nat, j: nat)
    requires p in d.pools && i <= j < |d.pools[p]| && Expand(d, path, p, i).Done?
    requires IsPool(d, d.pools[p][j])
    ensures d.pools[p][j] !in path && Expand(d, path + {d.pools[p][j]}, d.pools[p][j], 0).Done?
    decreases j - i
  {
    if i < j { DoneBelow(d, path, p, i + 1, j); }
  }

  /** So no walk from there meets the path, or itself, after its first pool. */
  lemma {:induction false} DoneHasNoRepeat(d: Dictionary, path: set<string>, walk: seq<string>, k: nat)
    requires IsWalk(d, walk) && Expand(d, path, walk[0], 0).Done? && 0 < k < |walk|
    ensures walk[k] !in path && walk[k] !in walk[1..k]
    decreases |walk|
  {
    assert Contains(d, walk[0], walk[1]);
    var j :| 0 <= j < |d.pools[walk[0]]| && d.pools[walk[0]][j] == walk[1];
    DoneBelow(d, path, walk[0], 0, j);
    if k > 1 {
      var rest := walk[1..];
      forall i | 0 <= i < |rest| - 1 ensures Contains(d, rest[i], rest[i + 1]) {
        assert Contains(d, walk[i + 1], walk[(i + 1) + 1]);
      }
      DoneHasNoRepeat(d, path + {walk[1]}, rest, k - 1);
      assert walk[1..k] == [walk[1]] + rest[1..k - 1];
    }
  }

  lemma NoRepeatFromRoot(d: Dictionary, walk: seq<string>)
    requires IsWalk(d, walk) && Expand(d, {}, walk[0], 0).Done?
    ensures forall i, j :: 0 < i < j < |walk| ==> walk[i] != walk[j]
  {
    forall i, j | 0 < i < j < |walk| ensures walk[i] != walk[j] {
      DoneHasNoRepeat(d, {}, walk, j);
      assert walk[1..j][i - 1] == walk[i];
    }
  }

  /** The search fails exactly when a cycle of pools can be reached from the root. */
  lemma FailsOnCycle(d: Dictionary, root: string)
    requires root in d.pools
    ensures Expand(d, {}, root, 0).Loop? <==> CycleReachable(d, root)
  {
    if Expand(d, {}, root, 0).Loop? {
      LoopIsCycle(d, {}, root, 0, [root]);
    } else if CycleReachable(d, root) {
      var walk :| IsWalk(d, walk) && walk[0] == root && Repeats(walk);
      var i, j :| 0 <= i < j < |walk| && walk[i] == walk[j];
      NoRepeatFromRoot(d, walk);
      if i == 0 {
        var again := walk[..j + 1] + [walk[1]];
        assert Contains(d, walk[0], walk[1]);
        assert IsWalk(d, walk[..j + 1]);
        ExtendWalk(d, walk[..j + 1], walk[1]);
        assert again[1] == again[j + 1];
        NoRepeatFromRoot(d, again);
      }
      assert false;
    }
  }

  /** A member as it is delivered. */
  function Delivered(d: Dictionary, name: string): PoolMember {
    if name in d.objects then Object(name) else Pool(name)
  }

  /** Every known member of the pool at k is delivered before k. */
  ghost predicate MembersBefore(d: Dictionary, members: seq<PoolMember>, k: nat)
    requires k < |members|
  {
    members[k].Pool? && members[k].name in d.pools ==>
      forall name :: name in d.pools[members[k].name] && (name in d.objects || name in d.pools) ==>
        Delivered(d, name) in members[..k]
  }

  /** The members of p from i on are delivered, each pool after what it contains, and p last. */
  ghost predicate InOrder(d: Dictionary, p: string, i: nat, members: seq<PoolMember>)
    requires p in d.pools
  {
    && |members| > 0 && members[|members| - 1] == Pool(p)
    && (forall k :: 0 <= k < |members| - 1 ==> MembersBefore(d, members, k))
    && (forall j :: i <= j < |d.pools[p]| && (d.pools[p][j] in d.objects || d.pools[p][j] in d.pools) ==>
          Delivered(d, d.pools[p][j]) in members[..|members| - 1])
  }

  /** Each pool comes after all its members. */
  lemma {:induction false} PostOrder(d: Dictionary, path: set<string>, p: string, i: nat)
    requires p in d.pools && i <= |d.pools[p]| && Expand(d, path, p, i).Done?
    ensures InOrder(d, p, i, Expand(d, path, p, i).members)
    decreases d.pools.Keys - path, |d.pools[p]| - i
  {
    if i < |d.pools[p]| {
      hide InOrder;
      var name := d.pools[p][i];
      PostOrder(d, path, p, i + 1);
      var rest := Expand(d, path, p, i + 1).members;
      if name in d.objects {
        InOrderStep(d, p, i, [Object(name)], rest);
      } else if name in d.pools {
        assert name in d.pools.Keys - path;
        PostOrder(d, path + {name}, name, 0);
        InOrderStep(d, p, i, Expand(d, path + {name}, name, 0).members, rest);
      } else {
        InOrderStep(d, p, i, [], rest);
      }
    }
  }

  lemma InOrderStep(d: Dictionary, p: string, i: nat, first: seq<PoolMember>, rest: seq<PoolMember>)
    requires p in d.pools && i < |d.pools[p]| && InOrder(d, p, i + 1, rest)
    requires var name := d.pools[p][i];
      if name in d.objects then first == [Object(name)]
      else if name in d.pools then InOrder(d, name, 0, first)
      else first == []
    ensures InOrder(d, p, i, first + rest)
  {
    var name := d.pools[p][i];
    if IsPool(d, name) { LastToo(d, first, name); }
    Shifted(d, first, rest);
    assert (first + rest)[..|first + rest| - 1] == first + rest[..|rest| - 1];
    if IsPool(d, name) { assert first[|first| - 1] == Pool(name); }
  }

  lemma LastToo(d: Dictionary, members: seq<PoolMember>, p: string)
    requires p in d.pools && InOrder(d, p, 0, members)
    ensures MembersBefore(d, members, |members| - 1)
  {
  }

  lemma Shifted(d: Dictionary, a: seq<PoolMember>, b: seq<PoolMember>)
    requires forall k :: 0 <= k < |a| ==> MembersBefore(d, a, k)
    requires |b| > 0 && forall k :: 0 <= k < |b| - 1 ==> MembersBefore(d, b, k)
    ensures forall k :: 0 <= k < |a + b| - 1 ==> MembersBefore(d, a + b, k)
  {
    forall k | 0 <= k < |a + b| - 1 ensures MembersBefore(d, a + b, k) {
      if k < |a| {
        assert MembersBefore(d, a, k) && (a + b)[..k] == a[..k];
      } else {
        assert MembersBefore(d, b, k - |a|) && (a + b)[..k] == a + b[..k - |a|];
      }
    }
  }

  ghost predicate Leads(d: Dictionary, walk: seq<string>, root: string, name: string) {
    IsWalk(d, walk) && walk[0] == root && walk[|walk| - 1] == name
  }

  ghost predicate Reachable(d: Dictionary, root: string, name: string) {
    exists walk :: Leads(d, walk, root, name)
  }

  /** The name stands in a pool that can be reached. */
  ghost predicate Mentioned(d: Dictionary, root: string, name: string) {
    exists p :: Reachable(d, root, p) && p in d.pools && name in d.pools[p]
  }

  ghost predicate Unknown(d: Dictionary, name: string) {
    name !in d.objects && name !in d.pools
  }

  /** Everything that is delivered comes from a pool that can be reached. */
  ghost predicate FromReach(d: Dictionary, root: string, o: Outcome)
    requires o.Done?
  {
    && (forall m :: m in o.members ==>
          if m.Pool? then Reachable(d, root, m.name) else m.name in d.objects && Mentioned(d, root, m.name))
    && (forall name :: name in o.unresolved ==> Unknown(d, name) && Mentioned(d, root, name))
  }

  lemma {:induction false} OnlyReachable(d: Dictionary, path: set<string>, p: string, i: nat, root: string, walk: seq<string>)
    requires p in d.pools && i <= |d.pools[p]| && Expand(d, path, p, i).Done? && Leads(d, walk, root, p)
    ensures FromReach(d, root, Expand(d, path, p, i))
    decreases d.pools.Keys - path, |d.pools[p]| - i
  {
    assert Reachable(d, root, p);
    if i < |d.pools[p]| {
      var name := d.pools[p][i];
      OnlyReachable(d, path, p, i + 1, root, walk);
      assert Mentioned(d, root, name);
      if IsPool(d, name) {
        assert name in d.pools.Keys - path;
        ExtendWalk(d, walk, name);
        OnlyReachable(d, path + {name}, name, 0, root, walk + [name]);
      }
    }
  }

  /** Every unknown name of a pool that is delivered before k is unresolved. */
  ghost predicate Unresolves(d: Dictionary, members: seq<PoolMember>, unresolved: seq<string>, k: nat)
    requires k <= |members|
  {
    forall m, name :: m in members[..k] && m.Pool? && m.name in d.pools && name in d.pools[m.name] && Unknown(d, name) ==>
      name in unresolved
  }

  ghost predicate LeftOver(d: Dictionary, p: string, i: nat, o: Outcome)
    requires o.Done? && p in d.pools
  {
    && |o.members| > 0 && o.members[|o.members| - 1] == Pool(p)
    && Unresolves(d, o.members, o.unresolved, |o.members| - 1)
    && forall j :: i <= j < |d.pools[p]| && Unknown(d, d.pools[p][j]) ==> d.pools[p][j] in o.unresolved
  }

  lemma {:induction false} AllUnresolved(d: Dictionary, path: set<string>, p: string, i: nat)
    requires p in d.pools && i <= |d.pools[p]| && Expand(d, path, p, i).Done?
    ensures LeftOver(d, p, i, Expand(d, path, p, i))
    decreases d.pools.Keys - path, |d.pools[p]| - i
  {
    if i < |d.pools[p]| {
      hide LeftOver;
      var name := d.pools[p][i];
      AllUnresolved(d, path, p, i + 1);
      var rest := Expand(d, path, p, i + 1);
      if name in d.objects {
        LeftOverStep(d, p, i, Done([Object(name)], []), rest);
      } else if name in d.pools {
        assert name in d.pools.Keys - path;
        AllUnresolved(d, path + {name}, name, 0);
        LeftOverStep(d, p, i, Expand(d, path + {name}, name, 0), rest);
      } else {
        LeftOverStep(d, p, i, Done([], [name]), rest);
      }
    }
  }

  lemma LeftOverStep(d: Dictionary, p: string, i: nat, first: Outcome, rest: Outcome)
    requires p in d.pools && i < |d.pools[p]| && first.Done? && rest.Done? && LeftOver(d, p, i + 1, rest)
    requires var name := d.pools[p][i];
      if name in d.objects then first == Done([Object(name)], [])
      else if name in d.pools then LeftOver(d, name, 0, first)
      else first == Done([], [name])
    ensures LeftOver(d, p, i, Then(first, rest))
  {
    var all := Then(first, rest);
    var n := |all.members| - 1;
    assert all.members[..n] == first.members + rest.members[..|rest.members| - 1];
    forall m, name | m in all.members[..n] && m.Pool? && m.name in d.pools && name in d.pools[m.name] && Unknown(d, name)
      ensures name in all.unresolved
    {
      if m in rest.members[..|rest.members| - 1] {
        assert name in rest.unresolved;
      } else {
        assert m in first.members;
        assert first.members == first.members[..|first.members| - 1] + [first.members[|first.members| - 1]];
        assert name in first.unresolved;
      }
    }
  }

  /** Everything that can be reached is delivered. */
  lemma {:induction false} AllReached(d: Dictionary, members: seq<PoolMember>, walk: seq<string>, k: nat)
    requires IsWalk(d, walk) && k < |walk| && Pool(walk[0]) in members
    requires forall i :: 0 <= i < |members| ==> MembersBefore(d, members, i)
    ensures Pool(walk[k]) in members
  {
    if k > 0 {
      AllReached(d, members, walk, k - 1);
      assert Contains(d, walk[k - 1], walk[(k - 1) + 1]);
      var i :| 0 <= i < |members| && members[i] == Pool(walk[k - 1]);
      assert MembersBefore(d, members, i);
      assert Delivered(d, walk[k]) in members[..i];
    }
  }

  lemma MemberDelivered(d: Dictionary, root: string, o: Outcome, p: string, name: string)
    requires o.Done? && root in d.pools && p in d.pools && name in d.pools[p] && Pool(p) in o.members
    requires (forall k :: 0 <= k < |o.members| ==> MembersBefore(d, o.members, k)) && LeftOver(d, root, 0, o)
    ensures name in d.objects ==> Object(name) in o.members
    ensures Unknown(d, name) ==> name in o.unresolved
  {
    var k :| 0 <= k < |o.members| && o.members[k] == Pool(p);
    assert MembersBefore(d, o.members, k);
    if k < |o.members| - 1 {
      assert o.members[k] in o.members[..|o.members| - 1];
    }
  }

  /** What resolve returns when it does not fail: the pools that can be reached, the known objects and the
      unknown names in them, each pool after all its known members. */
  lemma Resolved(d: Dictionary, root: string)
    requires root in d.pools && Expand(d, {}, root, 0).Done?
    ensures var members := Expand(d, {}, root, 0).members;
      && |members| > 0 && members[|members| - 1] == Pool(root)
      && forall k :: 0 <= k < |members| ==> MembersBefore(d, members, k)
    ensures forall name :: Pool(name) in Expand(d, {}, root, 0).members <==> Reachable(d, root, name)
    ensures forall name :: Object(name) in Expand(d, {}, root, 0).members <==> name in d.objects && Mentioned(d, root, name)
    ensures forall name :: name in Expand(d, {}, root, 0).unresolved <==> Unknown(d, name) && Mentioned(d, root, name)
  {
    hide Expand, Reachable, Mentioned, Unknown, LeftOver, MembersBefore;
    var o := Expand(d, {}, root, 0);
    PostOrder(d, {}, root, 0);
    LastToo(d, o.members, root);
    AtRoot(d, root);
    OnlyReachable(d, {}, root, 0, root, [root]);
    AllUnresolved(d, {}, root, 0);
    assert Pool(root) in o.members;
    forall name
      ensures Reachable(d, root, name) ==> Pool(name) in o.members
      ensures Mentioned(d, root, name) && name in d.objects ==> Object(name) in o.members
      ensures Mentioned(d, root, name) && Unknown(d, name) ==> name in o.unresolved
    {
      if Reachable(d, root, name) { PoolDelivered(d, root, o, name); }
      if Mentioned(d, root, name) { MentionedDelivered(d, root, o, name); }
    }
  }

  lemma AtRoot(d: Dictionary, root: string)
    requires root in d.pools
    ensures Leads(d, [root], root, root)
  {
  }

  lemma PoolDelivered(d: Dictionary, root: string, o: Outcome, name: string)
    requires o.Done? && Pool(root) in o.members && forall k :: 0 <= k < |o.members| ==> MembersBefore(d, o.members, k)
    requires Reachable(d, root, name)
    ensures Pool(name) in o.members
  {
    var walk :| Leads(d, walk, root, name);
    AllReached(d, o.members, walk, |walk| - 1);
  }

  lemma MentionedDelivered(d: Dictionary, root: string, o: Outcome, name: string)
    requires o.Done? && Pool(root) in o.members && forall k :: 0 <= k < |o.members| ==> MembersBefore(d, o.members, k)
    requires root in d.pools && LeftOver(d, root, 0, o) && Mentioned(d, root, name)
    ensures name in d.objects ==> Object(name) in o.members
    ensures Unknown(d, name) ==> name in o.unresolved
  {
    var p :| Reachable(d, root, p) && p in d.pools && name in d.pools[p];
    PoolDelivered(d, root, o, p);
    MemberDelivered(d, root, o, p, name);
  }
}
