/** Expansion of a pool into the objects and pools that it contains, by depth-first search with an explicit
    stack. */
module Resolver {

  /** The names of the known objects, and the pools with the names of their members. */
  datatype Dictionary = Dictionary(objects: set<string>, pools: map<string, seq<string>>)

  datatype PoolMember = Object(name: string) | Pool(name: string)

  datatype Outcome =
    | Loop(name: string)
    | Done(members: seq<PoolMember>, unresolved: seq<string>)

  function Then(first: Outcome, second: Outcome): Outcome {
    match first
    case Loop(_) => first
    case Done(a, u) =>
      match second
      case Loop(_) => second
      case Done(b, v) => Done(a + b, u + v)
  }

  /** Objects come before pools of the same name. */
  predicate IsPool(d: Dictionary, name: string) {
    name !in d.objects && name in d.pools
  }

  /** The recursive expansion of pool p from member i on, below the pools in path: members in order, each
      pool after what it contains. */
  function Expand(d: Dictionary, path: set<string>, p: string, i: nat): Outcome
    requires p in d.pools && i <= |d.pools[p]|
    decreases d.pools.Keys - path, |d.pools[p]| - i
  {
    if i == |d.pools[p]| then Done([Pool(p)], [])
    else
      var name := d.pools[p][i];
      if name in d.objects then Then(Done([Object(name)], []), Expand(d, path, p, i + 1))
      else if name !in d.pools then Then(Done([], [name]), Expand(d, path, p, i + 1))
      else if name in path then Loop(name)
      else
        assert name in d.pools.Keys - path;
        Then(Expand(d, path + {name}, name, 0), Expand(d, path, p, i + 1))
  }

  /** How many rounds the search makes for it. */
  function Rounds(d: Dictionary, path: set<string>, p: string, i: nat): nat
    requires p in d.pools && i <= |d.pools[p]|
    decreases d.pools.Keys - path, |d.pools[p]| - i
  {
    if i == |d.pools[p]| then 1
    else
      var name := d.pools[p][i];
      if !IsPool(d, name) then 1 + Rounds(d, path, p, i + 1)
      else if name in path then 1
      else
        assert name in d.pools.Keys - path;
        1 + Rounds(d, path + {name}, name, 0) + Rounds(d, path, p, i + 1)
  }

  /** An entry of the stack. */
  datatype Member = Member(pool: string, index: nat)

  function Names(chain: seq<Member>): set<string> {
    set i | 0 <= i < |chain| :: chain[i].pool
  }

  predicate ValidChain(d: Dictionary, chain: seq<Member>) {
    && (forall i :: 0 <= i < |chain| ==> chain[i].pool in d.pools && chain[i].index <= |d.pools[chain[i].pool]|)
    && (forall i, j :: 0 < i < j < |chain| ==> chain[i].pool != chain[j].pool)
  }

  /** The pools above the root of the chain. */
  function Above(chain: seq<Member>): set<string> {
    if |chain| <= 1 then {} else Above(chain[..|chain| - 1]) + {chain[|chain| - 1].pool}
  }

  lemma {:induction false} AboveNames(chain: seq<Member>)
    ensures Above(chain) == if chain == [] then {} else Names(chain[1..])
    decreases |chain|
  {
    if |chain| > 1 {
      AboveNames(chain[..|chain| - 1]);
      assert chain[1..] == chain[..|chain| - 1][1..] + [chain[|chain| - 1]];
    }
  }

  /** What the stack still has to deliver, and in how many rounds. */
  function Pending(d: Dictionary, chain: seq<Member>): Outcome
    requires ValidChain(d, chain)
  {
    if chain == [] then Done([], [])
    else
      var top := chain[|chain| - 1];
      Then(Expand(d, Above(chain), top.pool, top.index), Pending(d, chain[..|chain| - 1]))
  }

  function PendingRounds(d: Dictionary, chain: seq<Member>): nat
    requires ValidChain(d, chain)
  {
    if chain == [] then 0
    else
      var top := chain[|chain| - 1];
      Rounds(d, Above(chain), top.pool, top.index) + PendingRounds(d, chain[..|chain| - 1])
  }

  lemma ThenAssociates(a: Outcome, b: Outcome, c: Outcome)
    ensures Then(Then(a, b), c) == Then(a, Then(b, c))
  {
  }

  /** The top entry moves on to its next member. */
  function Advanced(chain: seq<Member>): seq<Member>
    requires chain != []
  {
    var last := |chain| - 1;
    chain[last := Member(chain[last].pool, chain[last].index + 1)]
  }

  lemma AdvancedAbove(d: Dictionary, chain: seq<Member>)
    requires chain != [] && ValidChain(d, chain) && chain[|chain| - 1].index < |d.pools[chain[|chain| - 1].pool]|
    ensures ValidChain(d, Advanced(chain))
    ensures Above(Advanced(chain)) == Above(chain)
    ensures Advanced(chain)[..|chain| - 1] == chain[..|chain| - 1]
  {
  }

  /** A member that is no pool is delivered at once. */
  lemma StepOver(d: Dictionary, chain: seq<Member>)
    requires chain != [] && ValidChain(d, chain)
    requires var top := chain[|chain| - 1];
      top.index < |d.pools[top.pool]| && !IsPool(d, d.pools[top.pool][top.index])
    ensures ValidChain(d, Advanced(chain)) && Above(Advanced(chain)) == Above(chain)
    ensures var name := d.pools[chain[|chain| - 1].pool][chain[|chain| - 1].index];
      Pending(d, chain) ==
        Then(if name in d.objects then Done([Object(name)], []) else Done([], [name]), Pending(d, Advanced(chain)))
    ensures PendingRounds(d, chain) == 1 + PendingRounds(d, Advanced(chain))
  {
    AdvancedAbove(d, chain);
    var top := chain[|chain| - 1];
    var name := d.pools[top.pool][top.index];
    ThenAssociates(if name in d.objects then Done([Object(name)], []) else Done([], [name]),
                   Expand(d, Above(chain), top.pool, top.index + 1), Pending(d, chain[..|chain| - 1]));
  }

  lemma DownValid(d: Dictionary, chain: seq<Member>, name: string)
    requires ValidChain(d, chain) && IsPool(d, name) && name !in Above(chain)
    ensures ValidChain(d, chain + [Member(name, 0)])
    ensures chain != [] ==> Above(chain + [Member(name, 0)]) == Above(chain) + {name}
  {
    var down := chain + [Member(name, 0)];
    assert down[..|chain|] == chain;
    AboveNames(chain);
    forall i, j | 0 < i < j < |down| ensures down[i].pool != down[j].pool {
      if j == |chain| { assert chain[1..][i - 1].pool in Names(chain[1..]); }
    }
  }

  lemma PendingPush(d: Dictionary, chain: seq<Member>, m: Member)
    requires ValidChain(d, chain) && ValidChain(d, chain + [m])
    requires m.pool in d.pools && m.index <= |d.pools[m.pool]|
    ensures Pending(d, chain + [m]) == Then(Expand(d, Above(chain + [m]), m.pool, m.index), Pending(d, chain))
    ensures PendingRounds(d, chain + [m]) == Rounds(d, Above(chain + [m]), m.pool, m.index) + PendingRounds(d, chain)
  {
    assert (chain + [m])[..|chain|] == chain;
    hide Expand, Rounds;
  }

  /** A pool that is not on the path is pushed. */
  lemma StepDown(d: Dictionary, chain: seq<Member>, name: string)
    requires chain != [] && ValidChain(d, chain)
    requires var top := chain[|chain| - 1];
      top.index < |d.pools[top.pool]| && name == d.pools[top.pool][top.index]
    requires IsPool(d, name) && name !in Above(chain)
    ensures var down := Advanced(chain) + [Member(name, 0)];
      ValidChain(d, down) && Above(down) == Above(chain) + {name} &&
      Pending(d, chain) == Pending(d, down) && PendingRounds(d, chain) == 1 + PendingRounds(d, down)
  {
    hide ValidChain, Above, Then, Pending, PendingRounds;
    TopValid(d, chain);
    AdvancedAbove(d, chain);
    var next, rest := Advanced(chain), chain[..|chain| - 1];
    var down := next + [Member(name, 0)];
    DownValid(d, next, name);
    PendingPush(d, next, Member(name, 0));
    var top := chain[|chain| - 1];
    assert chain == rest + [top] && next == rest + [Member(top.pool, top.index + 1)];
    RestValid(d, chain);
    PendingPush(d, rest, top);
    PendingPush(d, rest, Member(top.pool, top.index + 1));
    ThenAssociates(Expand(d, Above(down), name, 0), Expand(d, Above(chain), top.pool, top.index + 1), Pending(d, rest));
  }

  lemma RestValid(d: Dictionary, chain: seq<Member>)
    requires ValidChain(d, chain) && chain != []
    ensures ValidChain(d, chain[..|chain| - 1])
  {
  }

  /** A finished pool is delivered and popped. */
  lemma StepUp(d: Dictionary, chain: seq<Member>)
    requires chain != [] && ValidChain(d, chain)
    requires chain[|chain| - 1].index == |d.pools[chain[|chain| - 1].pool]|
    ensures var up := chain[..|chain| - 1];
      ValidChain(d, up) && Above(up) == Above(chain) - {chain[|chain| - 1].pool} &&
      Pending(d, chain) == Then(Done([Pool(chain[|chain| - 1].pool)], []), Pending(d, up)) &&
      PendingRounds(d, chain) == 1 + PendingRounds(d, up)
  {
    var up := chain[..|chain| - 1];
    AboveNames(up);
    if |chain| > 1 {
      assert forall i :: 0 <= i < |up[1..]| ==> up[1..][i].pool != chain[|chain| - 1].pool;
    }
  }

  /** The chain is never longer than the number of pools and one. */
  lemma {:induction false} ChainDepth(d: Dictionary, chain: seq<Member>)
    requires ValidChain(d, chain)
    ensures Above(chain) <= d.pools.Keys && |Above(chain)| == if chain == [] then 0 else |chain| - 1
    ensures |chain| <= |d.pools| + 1
    decreases |chain|
  {
    if |chain| > 1 {
      var up := chain[..|chain| - 1];
      ChainDepth(d, up);
      AboveNames(up);
      assert forall i :: 0 <= i < |up[1..]| ==> up[1..][i].pool != chain[|chain| - 1].pool;
    }
    CardinalityUp(Above(chain), d.pools.Keys);
    assert |d.pools.Keys| == |d.pools|;
  }

  lemma {:induction false} CardinalityUp(a: set<string>, b: set<string>)
    requires a <= b
    ensures |a| <= |b|
  {
    if a != {} {
      var x :| x in a;
      CardinalityUp(a - {x}, b - {x});
    }
  }

  /** GenericResolver::resolve.  Loop stands for the exception. */
  method Resolve(d: Dictionary, root: string) returns (outcome: Outcome)
    requires root in d.pools
    ensures outcome == Expand(d, {}, root, 0)
  {
    hide ValidChain, Expand, Pending, PendingRounds, Above, Then;
    var expanded: seq<PoolMember>, unresolved: seq<string> := [], [];
    var chain := [Member(root, 0)];
    var visited: set<string> := {};
    Start(d, root);
    while chain != []
      invariant ValidChain(d, chain) && visited == Above(chain) && |chain| <= |d.pools| + 1
      invariant Then(Done(expanded, unresolved), Pending(d, chain)) == Expand(d, {}, root, 0)
      decreases if ValidChain(d, chain) then PendingRounds(d, chain) else 0
    {
      var top := chain[|chain| - 1];
      TopValid(d, chain);
      if top.index < |d.pools[top.pool]| {
        var name := d.pools[top.pool][top.index];
        ghost var before := chain;
        chain := chain[|chain| - 1 := Member(top.pool, top.index + 1)];
        if name in d.objects {
          StepOver(d, before);
          Deliver(expanded, unresolved, [Object(name)], [], Pending(d, chain));
          expanded := expanded + [Object(name)];
        } else if name in d.pools {
          if name in visited {
            LoopFound(d, before, expanded, unresolved);
            return Loop(name);
          }
          visited := visited + {name};
          StepDown(d, before, name);
          chain := chain + [Member(name, 0)];
        } else {
          StepOver(d, before);
          Deliver(expanded, unresolved, [], [name], Pending(d, chain));
          unresolved := unresolved + [name];
        }
      } else {
        StepUp(d, chain);
        Deliver(expanded, unresolved, [Pool(top.pool)], [], Pending(d, chain[..|chain| - 1]));
        expanded := expanded + [Pool(top.pool)];
        visited := visited - {top.pool};
        chain := chain[..|chain| - 1];
      }
      ChainDepth(d, chain);
    }
    outcome := Done(expanded, unresolved);
    PendingNothing(d);
    ThenNothing(outcome);
  }

  lemma Start(d: Dictionary, root: string)
    requires root in d.pools
    ensures ValidChain(d, [Member(root, 0)]) && Above([Member(root, 0)]) == {} && |d.pools| > 0
    ensures Then(Done([], []), Pending(d, [Member(root, 0)])) == Expand(d, {}, root, 0)
  {
    hide Expand;
    assert [Member(root, 0)][..0] == [];
    ThenNothing(Expand(d, {}, root, 0));
  }

  lemma PendingNothing(d: Dictionary)
    ensures ValidChain(d, []) && Pending(d, []) == Done([], [])
  {
  }

  /** What comes next may as well be delivered now. */
  lemma Deliver(expanded: seq<PoolMember>, unresolved: seq<string>, members: seq<PoolMember>, names: seq<string>, rest: Outcome)
    ensures Then(Done(expanded, unresolved), Then(Done(members, names), rest)) ==
      Then(Done(expanded + members, unresolved + names), rest)
    ensures unresolved + [] == unresolved && expanded + [] == expanded
  {
    ThenAssociates(Done(expanded, unresolved), Done(members, names), rest);
  }

  lemma ThenNothing(o: Outcome)
    ensures Then(o, Done([], [])) == o
    ensures Then(Done([], []), o) == o
  {
  }

  lemma TopValid(d: Dictionary, chain: seq<Member>)
    requires ValidChain(d, chain) && chain != []
    ensures var top := chain[|chain| - 1]; top.pool in d.pools && top.index <= |d.pools[top.pool]|
  {
  }

  lemma LoopFound(d: Dictionary, chain: seq<Member>, expanded: seq<PoolMember>, unresolved: seq<string>)
    requires chain != [] && ValidChain(d, chain)
    requires var top := chain[|chain| - 1];
      top.index < |d.pools[top.pool]| && IsPool(d, d.pools[top.pool][top.index]) &&
      d.pools[top.pool][top.index] in Above(chain)
    ensures Then(Done(expanded, unresolved), Pending(d, chain)) ==
      Loop(d.pools[chain[|chain| - 1].pool][chain[|chain| - 1].index])
  {
  }
}
