/** First-match filtering, and what the analysis of a rule list says about it.  A rule is here the set of
    packets that it matches; everything in this module is about such sets. */
module Policy {
  import opened Table
  import opened Mnodes
  import opened Options

  datatype RuleAction = Allow | Deny

  function Opposite(action: RuleAction): RuleAction {
    if action == Allow then Deny else Allow
  }

  datatype Row = Row(id: int, action: RuleAction, packets: Packets)

  /** The first rule that matches decides. */
  ghost function Decision(rows: seq<Row>, p: Env): Option<RuleAction> {
    if rows == [] then None
    else if p in rows[0].packets then Some(rows[0].action)
    else Decision(rows[1..], p)
  }

  ghost function Decided(rows: seq<Row>, action: RuleAction): Packets {
    iset p: Env | Decision(rows, p) == Some(action)
  }

  ghost function Undecided(rows: seq<Row>): Packets {
    iset p: Env | Decision(rows, p) == None
  }

  /** A longer list decides what the shorter one leaves open. */
  lemma {:induction false} DecisionConcat(a: seq<Row>, b: seq<Row>, p: Env)
    ensures Decision(a + b, p) == if Decision(a, p) == None then Decision(b, p) else Decision(a, p)
  {
    if a == [] {
      assert a + b == b;
    } else {
      assert (a + b)[1..] == a[1..] + b;
      DecisionConcat(a[1..], b, p);
    }
  }

  lemma DecisionPush(rows: seq<Row>, row: Row, p: Env)
    ensures Decision(rows + [row], p) ==
      if Decision(rows, p) != None then Decision(rows, p)
      else if p in row.packets then Some(row.action) else None
  {
    DecisionConcat(rows, [row], p);
    assert Decision([], p) == None;
  }

  lemma DecisionPrefix(rows: seq<Row>, n: nat, p: Env)
    requires n <= |rows|
    ensures Decision(rows[..n], p) != None ==> Decision(rows, p) == Decision(rows[..n], p)
  {
    assert rows == rows[..n] + rows[n..];
    DecisionConcat(rows[..n], rows[n..], p);
  }

  /** What is decided is decided by a rule that matches. */
  lemma {:induction false} Decider(rows: seq<Row>, p: Env) returns (i: nat)
    requires Decision(rows, p) != None
    ensures i < |rows| && p in rows[i].packets && Decision(rows, p) == Some(rows[i].action)
  {
    if p in rows[0].packets {
      i := 0;
    } else {
      i := Decider(rows[1..], p);
      i := i + 1;
    }
  }

  lemma EitherAction(o: Option<RuleAction>, action: RuleAction)
    ensures o == None || o == Some(action) || o == Some(Opposite(action))
  {
    match o
    case None =>
    case Some(a) =>
      assert a == action || a == Opposite(action);
  }

  /** The packets that the analysis has on file for an id: those of the last rule that carries it. */
  ghost function Cached(rows: seq<Row>, id: int): Packets {
    if rows == [] then iset{}
    else if rows[|rows| - 1].id == id then rows[|rows| - 1].packets
    else Cached(rows[..|rows| - 1], id)
  }

  /** The ids tell the rules before n apart; only the id of rule n itself may come more than once. */
  ghost predicate IdsTell(rows: seq<Row>, n: nat)
    requires n < |rows|
  {
    forall i, j :: 0 <= i < j < n && rows[i].id == rows[j].id ==> rows[i].id == rows[n].id
  }

  /** No id comes twice. */
  ghost predicate DistinctIds(rows: seq<Row>) {
    forall i, j :: 0 <= i < j < |rows| ==> rows[i].id != rows[j].id
  }

  /** The rule whose packets are on file for an id. */
  lemma {:induction false} CachedAt(rows: seq<Row>, id: int, i: nat) returns (m: nat)
    requires i < |rows| && rows[i].id == id
    ensures i <= m < |rows| && rows[m].id == id && Cached(rows, id) == rows[m].packets
  {
    var last := |rows| - 1;
    if rows[last].id == id {
      m := last;
    } else {
      m := CachedAt(rows[..last], id, i);
    }
  }

  /** What is on file for a rule before n are its own packets, or those of rule n. */
  lemma CachedBefore(rows: seq<Row>, n: nat, i: nat)
    requires n < |rows| && i < n && IdsTell(rows, n)
    ensures Cached(rows[..n + 1], rows[n].id) == rows[n].packets
    ensures Cached(rows[..n + 1], rows[i].id) == if rows[i].id == rows[n].id then rows[n].packets else rows[i].packets
  {
    var m := CachedAt(rows[..n + 1], rows[i].id, i);
    if rows[i].id == rows[n].id {
      var k := CachedAt(rows[..n + 1], rows[n].id, n);
    }
  }

  lemma CachedIsOwn(rows: seq<Row>, n: nat, i: nat)
    requires i <= n < |rows| && DistinctIds(rows)
    ensures Cached(rows[..n + 1], rows[i].id) == rows[i].packets
  {
    var m := CachedAt(rows[..n + 1], rows[i].id, i);
  }

  /** Which rules a report names. */
  datatype Details =
    | Shadowed(rules: seq<nat>)
    | FullRedundant(rules: seq<nat>)
    | RedundantOrCorrelated(redundant: seq<nat>, correlated: seq<nat>)
    | Generalization(rules: seq<nat>)
    | PartialRedundant(rules: seq<nat>)
    | Correlated(rules: seq<nat>)

  /** What the search for preceding rules asks of them. */
  datatype Search = Overlapping | Inside

  ghost predicate Found(rows: seq<Row>, n: nat, action: RuleAction, search: Search, i: nat)
    requires n < |rows|
  {
    var mine, other := Cached(rows[..n + 1], rows[n].id), if i < n then Cached(rows[..n + 1], rows[i].id) else iset{};
    && i < n && rows[i].action == action
    && match search
       case Overlapping => !(mine !! other)
       case Inside => other <= mine
  }

  /** The rules before m that are found, in order. */
  ghost function Find(rows: seq<Row>, n: nat, action: RuleAction, search: Search, m: nat): seq<nat>
    requires n < |rows|
  {
    if m == 0 then []
    else if Found(rows, n, action, search, m - 1) then Find(rows, n, action, search, m - 1) + [m - 1]
    else Find(rows, n, action, search, m - 1)
  }

  predicate Ascending(s: seq<nat>) {
    forall i, j :: 0 <= i < j < |s| ==> s[i] < s[j]
  }

  lemma {:induction false} FindIsFound(rows: seq<Row>, n: nat, action: RuleAction, search: Search, m: nat)
    requires n < |rows|
    ensures forall i: nat :: i in Find(rows, n, action, search, m) <==> i < m && Found(rows, n, action, search, i)
    ensures Ascending(Find(rows, n, action, search, m))
  {
    if m > 0 {
      FindIsFound(rows, n, action, search, m - 1);
      var before := Find(rows, n, action, search, m - 1);
      assert forall i :: 0 <= i < |before| ==> before[i] in before;
    }
  }

  /** The verdict on rule n, given what the rules before it decide. */
  ghost function Verdict(rows: seq<Row>, n: nat): Option<Details>
    requires n < |rows|
  {
    if rows[n].packets <= Undecided(rows[..n]) then None
    else if rows[n].packets !! Undecided(rows[..n]) then FullyMaskedVerdict(rows, n)
    else PartlyMaskedVerdict(rows, n)
  }

  ghost function FullyMaskedVerdict(rows: seq<Row>, n: nat): Option<Details>
    requires n < |rows|
  {
    var mine, same, opposite := rows[n].packets, rows[n].action, Opposite(rows[n].action);
    if mine <= Decided(rows[..n], opposite) then Some(Shadowed(Find(rows, n, opposite, Overlapping, n)))
    else if mine !! Decided(rows[..n], opposite) then Some(FullRedundant(Find(rows, n, same, Overlapping, n)))
    else Some(RedundantOrCorrelated(Find(rows, n, same, Overlapping, n), Find(rows, n, opposite, Overlapping, n)))
  }

  ghost function PartlyMaskedVerdict(rows: seq<Row>, n: nat): Option<Details>
    requires n < |rows|
  {
    var mine, same, opposite := rows[n].packets, rows[n].action, Opposite(rows[n].action);
    var general := Find(rows, n, opposite, Inside, n);
    var redundant := Find(rows, n, same, Inside, n);
    var correlated := Find(rows, n, opposite, Overlapping, n);
    if |general| > 0 then Some(Generalization(general))
    else if !(mine !! Decided(rows[..n], same)) && |redundant| > 0 then Some(PartialRedundant(redundant))
    else if !(mine !! Decided(rows[..n], opposite)) && |correlated| > 0 then Some(Correlated(correlated))
    else None
  }

  predicate ReportsFullyMasked(o: Option<Details>) {
    o.Some? && (o.value.Shadowed? || o.value.FullRedundant? || o.value.RedundantOrCorrelated?)
  }

  /** Fully masked is reported exactly when the rule matches something, all of it decided before. */
  lemma FullyMasked(rows: seq<Row>, n: nat)
    requires n < |rows|
    ensures ReportsFullyMasked(Verdict(rows, n)) <==>
      rows[n].packets != iset{} && forall p :: p in rows[n].packets ==> Decision(rows[..n], p) != None
  {
    var mine, open := rows[n].packets, Undecided(rows[..n]);
    if mine != iset{} {
      var p :| p in mine;
      assert mine <= open ==> p in open;
    }
  }

  /** The first n rules without those in drop. */
  ghost function Without(rows: seq<Row>, n: nat, drop: set<nat>): seq<Row>
    requires n <= |rows|
  {
    if n == 0 then []
    else if n - 1 in drop then Without(rows, n - 1, drop)
    else Without(rows, n - 1, drop) + [rows[n - 1]]
  }

  /** The rules that are left are the others, in order. */
  lemma {:induction false} WithoutKeeps(rows: seq<Row>, n: nat, drop: set<nat>) returns (kept: seq<nat>)
    requires n <= |rows|
    ensures Ascending(kept) && forall i: nat :: i in kept <==> i < n && i !in drop
    ensures |Without(rows, n, drop)| == |kept|
    ensures forall j :: 0 <= j < |kept| ==> kept[j] < |rows| && Without(rows, n, drop)[j] == rows[kept[j]]
  {
    if n == 0 {
      kept := [];
    } else {
      kept := WithoutKeeps(rows, n - 1, drop);
      assert forall j :: 0 <= j < |kept| ==> kept[j] in kept;
      if n - 1 !in drop {
        kept := kept + [n - 1];
      }
    }
  }

  lemma {:induction false} WithoutDecides(rows: seq<Row>, n: nat, drop: set<nat>, p: Env)
    requires n <= |rows| && forall i :: i in drop && i < n ==> ReportsFullyMasked(Verdict(rows, i))
    ensures Decision(Without(rows, n, drop), p) == Decision(rows[..n], p)
  {
    if n > 0 {
      WithoutDecides(rows, n - 1, drop, p);
      assert rows[..n] == rows[..n - 1] + [rows[n - 1]];
      DecisionPush(rows[..n - 1], rows[n - 1], p);
      DecisionPush(Without(rows, n - 1, drop), rows[n - 1], p);
      FullyMasked(rows, n - 1);
    }
  }

  /** Deleting any of the fully masked rules, or all of them at once, changes no decision. */
  lemma FullyMaskedRemovable(rows: seq<Row>, drop: set<nat>, p: Env)
    requires forall i :: i in drop && i < |rows| ==> ReportsFullyMasked(Verdict(rows, i))
    ensures Decision(Without(rows, |rows|, drop), p) == Decision(rows, p)
  {
    WithoutDecides(rows, |rows|, drop, p);
    assert rows[..|rows|] == rows;
  }

  /** What a report promises of the rules that it names: they match every packet of the rule. */
  ghost predicate Covers(rows: seq<Row>, named: seq<nat>, packets: Packets) {
    forall p :: p in packets ==> exists i :: i in named && i < |rows| && p in rows[i].packets
  }

  /** The rules before n that have the action and lie inside rule n, or share a packet with it, in order. */
  ghost predicate Names(rows: seq<Row>, n: nat, named: seq<nat>, action: RuleAction, search: Search)
    requires n < |rows|
  {
    && Ascending(named)
    && forall i: nat :: i in named <==>
      && i < n && rows[i].action == action
      && if search == Inside then rows[i].packets <= rows[n].packets else exists p :: p in rows[n].packets && p in rows[i].packets
  }

  lemma FindNames(rows: seq<Row>, n: nat, action: RuleAction, search: Search)
    requires n < |rows| && DistinctIds(rows)
    ensures Names(rows, n, Find(rows, n, action, search, n), action, search)
  {
    FindIsFound(rows, n, action, search, n);
    CachedIsOwn(rows, n, n);
    forall i: nat | i < n ensures Cached(rows[..n + 1], rows[i].id) == rows[i].packets {
      CachedIsOwn(rows, n, i);
    }
  }

  /** A packet of rule n that action has already decided is matched by a rule that the search names. */
  lemma NamedDecider(rows: seq<Row>, n: nat, action: RuleAction, p: Env) returns (i: nat)
    requires n < |rows| && IdsTell(rows, n) && p in rows[n].packets
    requires Decision(rows[..n], p) == Some(action)
    ensures i in Find(rows, n, action, Overlapping, n) && i < n && p in rows[i].packets
  {
    i := Decider(rows[..n], p);
    CachedBefore(rows, n, i);
    assert p in Cached(rows[..n + 1], rows[n].id) && p in Cached(rows[..n + 1], rows[i].id);
    assert Found(rows, n, action, Overlapping, i);
    FindIsFound(rows, n, action, Overlapping, n);
  }

  /** Shadowed: every packet gets the opposite action, and the rules named match them all. */
  lemma ShadowedMeans(rows: seq<Row>, n: nat, named: seq<nat>)
    requires n < |rows| && Verdict(rows, n) == Some(Shadowed(named))
    ensures rows[n].packets != iset{}
    ensures forall p :: p in rows[n].packets ==> Decision(rows, p) == Some(Opposite(rows[n].action))
    ensures IdsTell(rows, n) ==> Covers(rows, named, rows[n].packets)
    ensures DistinctIds(rows) ==> Names(rows, n, named, Opposite(rows[n].action), Overlapping)
  {
    FullyMasked(rows, n);
    if DistinctIds(rows) { FindNames(rows, n, Opposite(rows[n].action), Overlapping); }
    forall p | p in rows[n].packets
      ensures Decision(rows, p) == Some(Opposite(rows[n].action))
      ensures IdsTell(rows, n) ==> exists i :: i in named && i < |rows| && p in rows[i].packets
    {
      assert p in Decided(rows[..n], Opposite(rows[n].action));
      DecisionPrefix(rows, n, p);
      if IdsTell(rows, n) {
        var i := NamedDecider(rows, n, Opposite(rows[n].action), p);
      }
    }
  }

  /** Fully redundant: every packet gets the rule's own action without it. */
  lemma FullRedundantMeans(rows: seq<Row>, n: nat, named: seq<nat>)
    requires n < |rows| && Verdict(rows, n) == Some(FullRedundant(named))
    ensures forall p :: p in rows[n].packets ==> Decision(rows[..n], p) == Some(rows[n].action)
    ensures IdsTell(rows, n) ==> Covers(rows, named, rows[n].packets)
    ensures DistinctIds(rows) ==> Names(rows, n, named, rows[n].action, Overlapping)
  {
    FullyMasked(rows, n);
    if DistinctIds(rows) { FindNames(rows, n, rows[n].action, Overlapping); }
    forall p | p in rows[n].packets
      ensures Decision(rows[..n], p) == Some(rows[n].action)
      ensures IdsTell(rows, n) ==> exists i :: i in named && i < |rows| && p in rows[i].packets
    {
      assert p !in Decided(rows[..n], Opposite(rows[n].action));
      EitherAction(Decision(rows[..n], p), rows[n].action);
      if IdsTell(rows, n) {
        var i := NamedDecider(rows, n, rows[n].action, p);
      }
    }
  }

  /** In the mixed case both lists are needed: the first names rules with the rule's own action, which match
      every packet that had this action already, and the second does the same for the opposite action. */
  lemma RedundantOrCorrelatedMeans(rows: seq<Row>, n: nat, redundant: seq<nat>, correlated: seq<nat>)
    requires n < |rows| && IdsTell(rows, n)
    requires Verdict(rows, n) == Some(RedundantOrCorrelated(redundant, correlated))
    ensures redundant != [] && correlated != []
    ensures Covers(rows, redundant, rows[n].packets * Decided(rows[..n], rows[n].action))
    ensures Covers(rows, correlated, rows[n].packets * Decided(rows[..n], Opposite(rows[n].action)))
    ensures Covers(rows, redundant + correlated, rows[n].packets)
    ensures DistinctIds(rows) ==> Names(rows, n, redundant, rows[n].action, Overlapping)
    ensures DistinctIds(rows) ==> Names(rows, n, correlated, Opposite(rows[n].action), Overlapping)
  {
    FullyMasked(rows, n);
    var same, opposite := rows[n].action, Opposite(rows[n].action);
    if DistinctIds(rows) {
      FindNames(rows, n, same, Overlapping);
      FindNames(rows, n, opposite, Overlapping);
    }
    forall p | p in rows[n].packets
      ensures p in Decided(rows[..n], opposite) ==> exists i :: i in correlated && i < |rows| && p in rows[i].packets
      ensures p !in Decided(rows[..n], opposite) ==>
        p in Decided(rows[..n], same) && exists i :: i in redundant && i < |rows| && p in rows[i].packets
    {
      EitherAction(Decision(rows[..n], p), same);
      var i := NamedDecider(rows, n, if p in Decided(rows[..n], opposite) then opposite else same, p);
    }
  }

  /** Which of the three reports a fully masked rule gets. */
  lemma FullyMaskedKinds(rows: seq<Row>, n: nat)
    requires n < |rows| && ReportsFullyMasked(Verdict(rows, n))
    ensures Verdict(rows, n).value.Shadowed? <==>
      forall p :: p in rows[n].packets ==> Decision(rows[..n], p) == Some(Opposite(rows[n].action))
    ensures Verdict(rows, n).value.FullRedundant? <==>
      forall p :: p in rows[n].packets ==> Decision(rows[..n], p) == Some(rows[n].action)
  {
    FullyMasked(rows, n);
    var mine, same, opposite := rows[n].packets, rows[n].action, Opposite(rows[n].action);
    forall p | p in mine
      ensures Decision(rows[..n], p) == Some(same) <==> p !in Decided(rows[..n], opposite)
    {
      EitherAction(Decision(rows[..n], p), same);
    }
    var p :| p in mine;
  }

  /** Some packets of rule n are decided before it, and some are left to it. */
  ghost predicate PartlyMasked(rows: seq<Row>, n: nat)
    requires n < |rows|
  {
    && (exists p :: p in rows[n].packets && Decision(rows[..n], p) == None)
    && (exists p :: p in rows[n].packets && Decision(rows[..n], p) != None)
  }

  /** A verdict that is neither silence nor about a fully masked rule is about a partly masked one. */
  lemma PartlyMaskedVerdictMeans(rows: seq<Row>, n: nat)
    requires n < |rows| && Verdict(rows, n).Some? && !ReportsFullyMasked(Verdict(rows, n))
    ensures PartlyMasked(rows, n) && Verdict(rows, n) == PartlyMaskedVerdict(rows, n)
  {
    var mine, open := rows[n].packets, Undecided(rows[..n]);
    var p :| p in mine && p !in open;
    var q :| q in mine && q in open;
  }


  /** Generalization: rules with the opposite action lie inside the rule, and the report names them all. */
  lemma GeneralizationMeans(rows: seq<Row>, n: nat, named: seq<nat>)
    requires n < |rows| && DistinctIds(rows) && Verdict(rows, n) == Some(Generalization(named))
    ensures PartlyMasked(rows, n) && named != []
    ensures Names(rows, n, named, Opposite(rows[n].action), Inside)
  {
    PartlyMaskedVerdictMeans(rows, n);
    FindNames(rows, n, Opposite(rows[n].action), Inside);
  }

  /** Partial redundancy: some packets get the rule's action without it, rules with that action lie inside
      it and are all named, and none with the opposite action does. */
  lemma PartialRedundantMeans(rows: seq<Row>, n: nat, named: seq<nat>)
    requires n < |rows| && DistinctIds(rows) && Verdict(rows, n) == Some(PartialRedundant(named))
    ensures PartlyMasked(rows, n) && named != []
    ensures exists p :: p in rows[n].packets && Decision(rows[..n], p) == Some(rows[n].action)
    ensures Names(rows, n, named, rows[n].action, Inside)
    ensures Names(rows, n, [], Opposite(rows[n].action), Inside)
  {
    PartlyMaskedVerdictMeans(rows, n);
    FindNames(rows, n, rows[n].action, Inside);
    FindNames(rows, n, Opposite(rows[n].action), Inside);
    var p :| p in rows[n].packets && p in Decided(rows[..n], rows[n].action);
  }

  /** Correlation: some packets get the opposite action, every one of them is matched by a rule that is
      named, the named rules are those with the opposite action that share a packet with the rule, and none
      of those lies inside it. */
  lemma CorrelatedMeans(rows: seq<Row>, n: nat, named: seq<nat>)
    requires n < |rows| && DistinctIds(rows) && Verdict(rows, n) == Some(Correlated(named))
    ensures PartlyMasked(rows, n) && named != []
    ensures exists p :: p in rows[n].packets && Decision(rows[..n], p) == Some(Opposite(rows[n].action))
    ensures Names(rows, n, named, Opposite(rows[n].action), Overlapping)
    ensures Names(rows, n, [], Opposite(rows[n].action), Inside)
    ensures Covers(rows, named, rows[n].packets * Decided(rows[..n], Opposite(rows[n].action)))
  {
    var opposite := Opposite(rows[n].action);
    PartlyMaskedVerdictMeans(rows, n);
    FindNames(rows, n, opposite, Overlapping);
    FindNames(rows, n, opposite, Inside);
    var p :| p in rows[n].packets && p in Decided(rows[..n], opposite);
    forall p | p in rows[n].packets * Decided(rows[..n], opposite)
      ensures exists i :: i in named && i < |rows| && p in rows[i].packets
    {
      var i := NamedDecider(rows, n, opposite, p);
    }
  }

  /** Some packet of rule n got the action before. */
  ghost predicate GotBefore(rows: seq<Row>, n: nat, action: RuleAction)
    requires n < |rows|
  {
    exists p :: p in rows[n].packets && Decision(rows[..n], p) == Some(action)
  }

  /** Some rule before n that has the action lies inside rule n. */
  ghost predicate HasInside(rows: seq<Row>, n: nat, action: RuleAction)
    requires n < |rows|
  {
    exists i: nat :: i < n && rows[i].action == action && rows[i].packets <= rows[n].packets
  }

  /** Which of the three reports a partly masked rule gets, if any. */
  lemma PartlyMaskedKinds(rows: seq<Row>, n: nat)
    requires n < |rows| && DistinctIds(rows) && PartlyMasked(rows, n)
    ensures var same, opposite, o := rows[n].action, Opposite(rows[n].action), Verdict(rows, n);
      if HasInside(rows, n, opposite) then o.Some? && o.value.Generalization?
      else if GotBefore(rows, n, same) && HasInside(rows, n, same) then o.Some? && o.value.PartialRedundant?
      else if GotBefore(rows, n, opposite) then o.Some? && o.value.Correlated?
      else o == None
  {
    var same, opposite := rows[n].action, Opposite(rows[n].action);
    NotFullyMasked(rows, n);
    FindNames(rows, n, opposite, Inside);
    FindNames(rows, n, same, Inside);
    InsideFound(rows, n, opposite);
    InsideFound(rows, n, same);
    GotIsShared(rows, n, same);
    GotIsShared(rows, n, opposite);
    if GotBefore(rows, n, opposite) {
      var p :| p in rows[n].packets && Decision(rows[..n], p) == Some(opposite);
      var i := NamedDecider(rows, n, opposite, p);
    }
  }

  lemma NotFullyMasked(rows: seq<Row>, n: nat)
    requires n < |rows| && PartlyMasked(rows, n)
    ensures Verdict(rows, n) == PartlyMaskedVerdict(rows, n)
  {
    var p :| p in rows[n].packets && Decision(rows[..n], p) == None;
    var q :| q in rows[n].packets && Decision(rows[..n], q) != None;
    assert p in Undecided(rows[..n]) && q !in Undecided(rows[..n]);
  }

  lemma InsideFound(rows: seq<Row>, n: nat, action: RuleAction)
    requires n < |rows| && Names(rows, n, Find(rows, n, action, Inside, n), action, Inside)
    ensures HasInside(rows, n, action) <==> |Find(rows, n, action, Inside, n)| > 0
  {
    var found := Find(rows, n, action, Inside, n);
    if |found| > 0 { assert found[0] in found; }
  }

  lemma GotIsShared(rows: seq<Row>, n: nat, action: RuleAction)
    requires n < |rows|
    ensures GotBefore(rows, n, action) <==> !(rows[n].packets !! Decided(rows[..n], action))
  {
    if GotBefore(rows, n, action) {
      var p :| p in rows[n].packets && Decision(rows[..n], p) == Some(action);
      assert p in Decided(rows[..n], action);
    }
  }

  /** Silence is sound when the ids tell the rules apart: a rule without a report decides all its packets,
      or they are decided as it would. */
  lemma SilenceIsSound(rows: seq<Row>, n: nat, p: Env)
    requires n < |rows| && IdsTell(rows, n) && Verdict(rows, n) == None && p in rows[n].packets
    ensures Decision(rows, p) == Some(rows[n].action)
  {
    var opposite := Opposite(rows[n].action);
    if Decision(rows[..n], p) == Some(opposite) {
      var i := NamedDecider(rows, n, opposite, p);
      assert false;
    }
    EitherAction(Decision(rows[..n], p), rows[n].action);
    assert rows[..n + 1] == rows[..n] + [rows[n]];
    DecisionPush(rows[..n], rows[n], p);
    DecisionPrefix(rows, n, p);
    DecisionPrefix(rows, n + 1, p);
  }

  ghost predicate HasIds(rows: seq<Row>, ids: seq<int>) {
    |rows| == |ids| && forall i :: 0 <= i < |ids| ==> rows[i].id == ids[i]
  }

  lemma {:induction false} Matched(rows: seq<Row>, i: nat, p: Env)
    requires i < |rows| && p in rows[i].packets
    ensures Decision(rows, p) != None
  {
    if p !in rows[0].packets {
      assert rows[1..][i - 1] == rows[i];
      Matched(rows[1..], i - 1, p);
    }
  }

  /** Rules with the given ids among which only rule i denies anything, and rule n would allow it. */
  ghost function Misleading(ids: seq<int>, i: nat, n: nat, denied: Packets, mine: Packets, other: Packets): (rows: seq<Row>)
    ensures HasIds(rows, ids)
  {
    seq(|ids|, k requires 0 <= k < |ids| =>
      if k == i then Row(ids[k], Deny, denied)
      else if k == n then Row(ids[k], Allow, mine)
      else Row(ids[k], Allow, other))
  }

  /** If a rule after i, but not n, carries its id, then i is not found when rule n is judged. */
  lemma NotFound(ids: seq<int>, i: nat, j: nat, n: nat, denied: Packets, mine: Packets, other: Packets, search: Search)
    requires i < j < n < |ids| && ids[i] == ids[j] != ids[n]
    requires mine !! other && other != iset{}
    ensures Find(Misleading(ids, i, n, denied, mine, other), n, Deny, search, n) == []
  {
    var rows := Misleading(ids, i, n, denied, mine, other);
    var seen := rows[..n + 1];
    var m := CachedAt(seen, ids[i], j);
    var k := CachedAt(seen, ids[n], n);
    var o :| o in other;
    assert o in Cached(seen, ids[i]) && o !in Cached(seen, ids[n]);
    forall x: nat | x < n ensures !Found(rows, n, Deny, search, x) {
    }
    FindNothing(rows, n, Deny, search, n);
  }

  lemma {:induction false} FindNothing(rows: seq<Row>, n: nat, action: RuleAction, search: Search, m: nat)
    requires n < |rows| && forall x: nat :: x < m ==> !Found(rows, n, action, search, x)
    ensures Find(rows, n, action, search, m) == []
  {
    if m > 0 { FindNothing(rows, n, action, search, m - 1); }
  }

  /** Rule n then has no report, although packet d, which it would allow, is denied. */
  lemma SilenceFails(ids: seq<int>, i: nat, j: nat, n: nat, denied: Packets, mine: Packets, other: Packets, d: Env, a: Env)
    requires i < j < n < |ids| && ids[i] == ids[j] != ids[n]
    requires mine !! other && other != iset{} && denied <= mine && d in denied && a in mine && a !in denied
    ensures var rows := Misleading(ids, i, n, denied, mine, other);
      Verdict(rows, n) == None && d in rows[n].packets && Decision(rows, d) == Some(Deny) != Some(rows[n].action)
  {
    var rows := Misleading(ids, i, n, denied, mine, other);
    var before := rows[..n];
    assert before[i] == rows[i];
    Matched(before, i, d);
    OnlyOne(before, i, d);
    if Decision(before, a) != None {
      var y := Decider(before, a);
      assert false;
    }
    NotFound(ids, i, j, n, denied, mine, other, Inside);
    NotFound(ids, i, j, n, denied, mine, other, Overlapping);
    assert a in Undecided(before) && d !in Undecided(before);
    forall p | p in mine ensures p !in Decided(before, Allow) {
      if Decision(before, p) == Some(Allow) {
        var y := Decider(before, p);
        assert false;
      }
    }
    DecisionPrefix(rows, n, d);
  }

  lemma OnlyOne(rows: seq<Row>, i: nat, p: Env)
    requires i < |rows| && Decision(rows, p) != None
    requires forall k :: 0 <= k < |rows| && p in rows[k].packets ==> k == i
    ensures Decision(rows, p) == Some(rows[i].action)
  {
    var x := Decider(rows, p);
  }

  ghost predicate SameDecisions(a: seq<Row>, b: seq<Row>) {
    forall p :: Decision(a, p) == Decision(b, p)
  }

  /** Two lists make the same decisions exactly when they allow the same packets and deny the same. */
  lemma SameDecisionsIff(a: seq<Row>, b: seq<Row>)
    ensures SameDecisions(a, b) <==> Decided(a, Allow) == Decided(b, Allow) && Decided(a, Deny) == Decided(b, Deny)
  {
    if Decided(a, Allow) == Decided(b, Allow) && Decided(a, Deny) == Decided(b, Deny) {
      forall p ensures Decision(a, p) == Decision(b, p) {
        EitherAction(Decision(a, p), Allow);
        EitherAction(Decision(b, p), Allow);
        assert p in Decided(a, Allow) <==> p in Decided(b, Allow);
        assert p in Decided(a, Deny) <==> p in Decided(b, Deny);
      }
      assert SameDecisions(a, b);
    }
    if SameDecisions(a, b) {
      assert Decided(a, Allow) == Decided(b, Allow);
      assert Decided(a, Deny) == Decided(b, Deny);
    }
  }
}
