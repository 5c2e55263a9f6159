/** Counting and enumerating satisfying assignments. */
module CountOps {
  import opened Table
  import opened Counting
  import opened Powers
  import opened Kernel
  import opened Options

  lemma CachedCount(t: seq<Node>, stale: bool, e: Entry)
    requires WellFormed(t) && e.a >= 0 && e.a < |t| && e.res >= 0 && e.c == CACHEID_SATCOU
    ensures MiscEntry(t, stale, e) <==> stale || e.res == Count(t, e.a)
  {
  }

  /** The count that the cache has for node n. */
  function Filed(cache: seq<Entry>, n: nat): Option<int> {
    if |cache| == 0 then None
    else
      var entry := cache[Slot(n, |cache|)];
      if entry.a == n && entry.c == CACHEID_SATCOU then Some(entry.res) else None
  }

  /** satcount_rec, in exact arithmetic.  A count that is on file is not made again. */
  method SatCountRec(k: Kernel, root: nat) returns (size: nat)
    requires k.Valid() && root < |k.nodes| && k.regs.miscid == CACHEID_SATCOU
    modifies k`miscCache
    ensures k.Valid()
    ensures !k.stale ==> size == Count(k.nodes, root)
    ensures if root < 2 then size == root else Filed(k.miscCache, root) == Some(size)
    ensures root >= 2 && Filed(old(k.miscCache), root).Some? ==> size == Filed(old(k.miscCache), root).value
    decreases k.nodes[0].level - k.nodes[root].level, 1
  {
    hide k.Valid, Eval, WellFormed, MiscEntry;
    if root < 2 {
      return root;
    }
    k.SameSize();
    var slot := Slot(root, k.cachesize);
    var entry := k.LookupMisc(slot);
    if entry.a == root && entry.c == k.regs.miscid {
      CachedCount(k.nodes, k.stale, entry);
      return entry.res;
    }
    size := SatCountInner(k, root);
    k.SameSize();
    entry := k.LookupMisc(slot);
    entry := entry.(a := root, c := k.regs.miscid, res := size);
    CachedCount(k.nodes, k.stale, entry);
    k.StoreMisc(slot, entry);
  }

  method SatCountInner(k: Kernel, root: nat) returns (size: nat)
    requires k.Valid() && 2 <= root < |k.nodes| && k.regs.miscid == CACHEID_SATCOU
    modifies k`miscCache
    ensures k.Valid()
    ensures !k.stale ==> size == Count(k.nodes, root)
    decreases k.nodes[0].level - k.nodes[root].level, 0
  {
    hide k.Valid, Eval, WellFormed, Count, Filed;
    LevelBound(k.nodes, root);
    CountUnfold(k.nodes, root);
    var node := k.nodes[root];
    var lo := SatCountRec(k, node.low);
    var hi := SatCountRec(k, node.high);
    size := Pow2(k.nodes[node.low].level - node.level - 1) * lo;
    size := size + Pow2(k.nodes[node.high].level - node.level - 1) * hi;
  }

  /** bdd_satcount: the number of satisfying assignments over all variables, unless counts are stale. */
  method SatCount(k: Kernel, r: int) returns (size: nat, err: int)
    requires k.Valid()
    modifies k`miscCache, k`regs
    ensures k.Valid()
    ensures err == if k.IsBdd(r) then 0 else BDD_ILLBDD
    ensures err != 0 ==> size == 0
    ensures err == 0 && !k.stale ==> 0 <= r < |k.nodes| && size == |Models(k.nodes, r, 0)|
    ensures err == 0 && r < 2 ==> size == Pow2(k.varnum) * r
    ensures err == 0 && r >= 2 ==> 0 <= r < |k.nodes| && IsScaled(k.nodes, r, size, Filed(k.miscCache, r))
    ensures err == 0 && r >= 2 && Filed(old(k.miscCache), r).Some? ==>
      0 <= r < |k.nodes| && IsScaled(k.nodes, r, size, Filed(old(k.miscCache), r))
  {
    hide k.Valid, Eval, WellFormed, Filed;
    if !k.IsBdd(r) {
      return 0, BDD_ILLBDD;
    }
    k.SetRegs(k.regs.(miscid := CACHEID_SATCOU));
    var below := SatCountRec(k, r);
    size := Pow2(k.nodes[r].level) * below;
    CountIsModels(k.nodes, r, 0);
    LevelBound(k.nodes, r);
    err := 0;
  }

  /** A count below the node, taken times the assignments above it. */
  predicate IsScaled(t: seq<Node>, n: nat, size: int, below: Option<int>)
    requires n < |t|
  {
    below.Some? && size == Pow2(t[n].level) * below.value
  }

  /** A count that is made, and made again after bdd_setvarnum added variables: the cache gives the first answer
      again, which is right for a constant only. */
  method CountAgain(k: Kernel, r: nat, num: nat) returns (first: nat, again: nat)
    requires k.Valid() && !k.stale && k.IsBdd(r) && k.varnum < num <= MAXVAR
    modifies k
    ensures k.Valid() && k.Widened() && k.varnum == num && r < |k.nodes|
    ensures first == |Models(old(k.nodes), r, 0)|
    ensures |Models(k.nodes, r, 0)| == Pow2(num - old(k.varnum)) * first
    ensures r >= 2 ==> again == first
    ensures again == |Models(k.nodes, r, 0)| <==> r < 2
  {
    hide k.Valid, Eval, WellFormed, Filed, Models;
    ghost var t := k.nodes;
    var err;
    first, err := SatCount(k, r);
    err := k.SetVarNum(num);
    again, err := SatCount(k, r);
    WidenModels(t, k.nodes, r);
    CountsDiffer(t, k.nodes, r, first);
  }

  lemma CountsDiffer(t: seq<Node>, t': seq<Node>, r: nat, first: nat)
    requires WellFormed(t) && WellFormed(t') && Extends(t, t') && r < |t| && t[0].level < t'[0].level
    requires first == |Models(t, r, 0)| && |Models(t', r, 0)| == Pow2(t'[0].level - t[0].level) * first
    ensures r >= 2 ==> first != |Models(t', r, 0)|
    ensures r < 2 ==> |Models(t', r, 0)| == Pow2(t'[0].level) * r
  {
    if r >= 2 {
      SomeModel(t, r);
      Pow2Next(t'[0].level - t[0].level - 1);
    } else {
      CountIsModels(t', r, 0);
    }
  }

  /** Marks the levels after v and before end as open, from the last to the first. */
  method LeaveOpen(profile: array<int>, v: int, end: nat)
    requires -1 <= v < end <= profile.Length
    modifies profile
    ensures profile[..end] == old(profile[..v + 1]) + seq(end - v - 1, _ => -1)
  {
    var w := end - 1;
    while w > v
      invariant v <= w < end
      invariant profile[..v + 1] == old(profile[..v + 1])
      invariant forall i :: w < i < end ==> profile[i] == -1
    {
      profile[w] := -1;
      w := w - 1;
    }
  }

  lemma ProlongIs(prefix: seq<int>, b: int, size: nat, rest: seq<int>)
    requires |prefix| < size && rest == seq(size - |prefix| - 1, _ => -1)
    ensures Prolong(prefix, b, size) == prefix + [b] + rest
  {
  }

  lemma ProfilesUnfold(t: seq<Node>, r: nat, prefix: seq<int>)
    requires WellFormed(t) && r < |t| && |prefix| == t[r].level
    ensures r == 0 ==> Profiles(t, r, prefix) == []
    ensures r == 1 ==> Profiles(t, r, prefix) == [prefix]
    ensures r >= 2 ==> InnerOk(t, r)
    ensures r >= 2 ==>
      var low := Profiles(t, t[r].low, Prolong(prefix, 0, t[t[r].low].level));
      var high := Profiles(t, t[r].high, Prolong(prefix, 1, t[t[r].high].level));
      Profiles(t, r, prefix) == low + high
  {
    LevelBound(t, r);
  }

  /** allsat_rec: what is delivered to the handler, after what it was delivered before.  The levels
      below r hold anything when the walk gets there. */
  method AllSatRec(k: Kernel, r: nat, profile: array<int>, before: seq<seq<int>>) returns (delivered: seq<seq<int>>)
    requires k.Valid() && r < |k.nodes| && profile.Length == k.nodes[0].level
    requires k.nodes[r].level <= profile.Length
    modifies profile
    ensures profile[..k.nodes[r].level] == old(profile[..k.nodes[r].level])
    ensures delivered == before + Profiles(k.nodes, r, old(profile[..k.nodes[r].level]))
    decreases k.nodes[0].level - k.nodes[r].level, 0
  {
    hide k.Valid, WellFormed, Profiles, Prolong;
    ghost var t := k.nodes;
    var node := k.nodes[r];
    ghost var prefix := profile[..node.level];
    ProfilesUnfold(t, r, prefix);
    LevelBound(t, r);
    if r == 1 {
      assert prefix == profile[..];
      return before + [profile[..]];
    }
    if r == 0 {
      return before;
    }
    delivered := Follow(k, node.level, 0, node.low, profile, before);
    delivered := Follow(k, node.level, 1, node.high, profile, delivered);
  }

  /** One branch of the walk: variable v gets value b, the levels that are skipped stay open. */
  method Follow(k: Kernel, v: nat, b: nat, child: nat, profile: array<int>, before: seq<seq<int>>)
    returns (delivered: seq<seq<int>>)
    requires k.Valid() && child < |k.nodes| && profile.Length == k.nodes[0].level
    requires v < k.nodes[child].level <= profile.Length
    modifies profile
    ensures profile[..v] == old(profile[..v])
    ensures delivered == before + Profiles(k.nodes, child, Prolong(old(profile[..v]), b, k.nodes[child].level))
    decreases k.nodes[0].level - k.nodes[child].level, 1
  {
    hide k.Valid, WellFormed, Profiles, Prolong;
    ghost var prefix := profile[..v];
    var size := k.nodes[child].level;
    if child == 0 {
      ProfilesUnfold(k.nodes, child, Prolong(prefix, b, size));
      return before;
    }
    profile[v] := b;
    LeaveOpen(profile, v, size);
    ProlongIs(prefix, b, size, seq(size - v - 1, _ => -1));
    assert profile[..size] == Prolong(prefix, b, size);
    delivered := AllSatRec(k, child, profile, before);
    assert profile[..v] == profile[..size][..v] == prefix;
  }

  lemma {:induction false} OpensAll(p: seq<int>)
    requires forall i :: 0 <= i < |p| ==> p[i] == -1
    ensures Opens(p) == |p|
  {
    if p != [] { OpensAll(p[..|p| - 1]); }
  }

  lemma Delivered(t: seq<Node>, r: nat, prefix: seq<int>)
    requires WellFormed(t) && r < |t| && |prefix| == t[r].level
    requires forall i :: 0 <= i < |prefix| ==> prefix[i] == -1
    ensures Enumerates(t, r, Profiles(t, r, prefix))
    ensures Weight(Profiles(t, r, prefix)) == |Models(t, r, 0)|
  {
    assert forall env :: Covers(prefix, env);
    ProfilesExact(t, r, prefix);
    WeightIsCount(t, r, prefix);
    OpensAll(prefix);
    CountIsModels(t, r, 0);
  }

  /** bdd_allsat: the handler is given disjoint cubes that make up the node's function, and
      their sizes add up to the count. */
  method AllSat(k: Kernel, r: int) returns (delivered: seq<seq<int>>, err: int)
    requires k.Valid()
    ensures err == if k.IsBdd(r) then 0 else BDD_ILLBDD
    ensures err != 0 ==> delivered == []
    ensures err == 0 ==> 0 <= r < |k.nodes| && Enumerates(k.nodes, r, delivered) && InOrder(delivered)
    ensures err == 0 ==> Weight(delivered) == |Models(k.nodes, r, 0)|
  {
    hide k.Valid, WellFormed, Profiles, Enumerates, Weight, InOrder;
    if !k.IsBdd(r) {
      return [], BDD_ILLBDD;
    }
    var profile := new int[k.nodes[0].level];
    LevelBound(k.nodes, r);
    var v := k.nodes[r].level - 1;
    while v >= 0
      invariant -1 <= v < k.nodes[r].level
      invariant forall i :: v < i < k.nodes[r].level ==> profile[i] == -1
    {
      profile[v] := -1;
      v := v - 1;
    }
    ghost var prefix := profile[..k.nodes[r].level];
    delivered := AllSatRec(k, r, profile, []);
    err := 0;
    assert delivered == Profiles(k.nodes, r, prefix);
    Delivered(k.nodes, r, prefix);
    ProfilesInOrder(k.nodes, r, prefix);
  }
}
