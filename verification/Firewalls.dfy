/** A firewall and the loader that fills it.  The loader lets no id in twice, so the analysis of what was
    loaded can rely on the ids. */
module Firewalls {
  import opened Table
  import opened Kernel
  import opened Policy
  import opened Analyzer
  import opened Comparator
  import opened Mnodes
  import opened Options
  import Wildcards

  ghost predicate UniqueIds(rules: seq<Rule>) {
    forall i, j :: 0 <= i < j < |rules| ==> rules[i].id != rules[j].id
  }

  class Firewall {
    var rules: seq<Rule>
    var ids: map<int, nat>

    /** Each id leads to the last rule that carries it. */
    ghost predicate Valid()
      reads this
    {
      && (forall i :: 0 <= i < |rules| ==> rules[i].id in ids && i <= ids[rules[i].id])
      && (forall id :: id in ids ==> ids[id] < |rules| && rules[ids[id]].id == id)
    }

    constructor ()
      ensures Valid() && rules == []
    {
      rules, ids := [], map[];
    }

    /** A copy, rule by rule. */
    constructor Clone(other: Firewall)
      requires other.Valid()
      ensures Valid() && rules == other.rules
    {
      rules, ids := [], map[];
      new;
      for i := 0 to |other.rules|
        invariant Valid() && rules == other.rules[..i]
      {
        AddRule(other.rules[i]);
      }
    }

    method Clear()
      modifies this
      ensures Valid() && rules == []
    {
      rules, ids := [], map[];
    }

    method AddRule(rule: Rule)
      requires Valid()
      modifies this
      ensures Valid() && rules == old(rules) + [rule]
    {
      rules := rules + [rule];
      ids := ids[rule.id := |rules| - 1];
    }

    /** The position of the last rule with an id. */
    method GetRule(id: int) returns (found: Option<nat>)
      requires Valid()
      ensures found == None <==> forall i :: 0 <= i < |rules| ==> rules[i].id != id
      ensures found.Some? ==> found.value < |rules| && rules[found.value].id == id
      ensures found.Some? ==> forall i :: found.value < i < |rules| ==> rules[i].id != id
    {
      found := if id in ids then Some(ids[id]) else None;
    }

    /** The commands that enable and disable a rule; a negative or unknown id is an error. */
    method SetStatus(id: int, enabled: bool) returns (ok: bool)
      requires Valid()
      modifies this
      ensures Valid() && |rules| == |old(rules)|
      ensures ok <==> id >= 0 && exists i :: 0 <= i < |rules| && old(rules)[i].id == id
      ensures !ok ==> rules == old(rules)
      ensures forall i :: 0 <= i < |rules| ==>
        rules[i] == old(rules)[i] || (rules[i].id == id && rules[i] == old(rules)[i].(enabled := enabled))
      ensures ok && UniqueIds(old(rules)) ==>
        forall i :: 0 <= i < |rules| && rules[i].id == id ==> rules[i].enabled == enabled
      ensures UniqueIds(old(rules)) ==> UniqueIds(rules)
    {
      if id < 0 {
        return false;
      }
      var found := GetRule(id);
      if found == None {
        return false;
      }
      var i := found.value;
      rules := rules[i := rules[i].(enabled := enabled)];
      ok := true;
    }
  }

  /** A row of the policy file: its id if that is a number, whether the other columns are in order, and the
      node of its predicate unless one of its groups turned out empty. */
  datatype RuleObject = RuleObject(id: Option<int>, readable: bool, status: string, action: string, groups: Option<nat>)

  /** next_row: the file is read up to the first row that is not in order. */
  predicate Readable(row: RuleObject) {
    row.readable && row.id.Some? && row.id.value > 0
  }

  predicate IEqual(a: string, b: string) {
    |a| == |b| && forall i :: 0 <= i < |a| ==> Wildcards.ToLower(a[i]) == Wildcards.ToLower(b[i])
  }

  function ActionOf(text: string): Option<RuleAction> {
    if IEqual(text, "allow") || IEqual(text, "accept") then Some(Allow)
    else if IEqual(text, "drop") || IEqual(text, "deny") then Some(Deny)
    else None
  }

  function StatusOf(text: string): Option<bool> {
    if IEqual(text, "enable") || IEqual(text, "enabled") then Some(true)
    else if IEqual(text, "disable") || IEqual(text, "disabled") then Some(false)
    else None
  }

  /** The rows that become rules: a new id, an action, a status, and no empty group. */
  ghost predicate Acceptable(rules: seq<Rule>, row: RuleObject)
    requires Readable(row)
  {
    && (forall i :: 0 <= i < |rules| ==> rules[i].id != row.id.value)
    && ActionOf(row.action).Some? && StatusOf(row.status).Some? && row.groups.Some?
  }

  function RuleOf(row: RuleObject): Rule
    requires Readable(row) && ActionOf(row.action).Some? && StatusOf(row.status).Some? && row.groups.Some?
  {
    Rule(row.id.value, StatusOf(row.status).value, ActionOf(row.action).value, row.groups.value)
  }

  const DENY_ALL := Rule(0, true, Deny, 1)

  /** FirewallFactory::add_rule. */
  method AddRow(fw: Firewall, row: RuleObject) returns (loaded: bool)
    requires fw.Valid() && Readable(row)
    modifies fw
    ensures fw.Valid()
    ensures loaded <==> Acceptable(old(fw.rules), row)
    ensures fw.rules == if loaded then old(fw.rules) + [RuleOf(row)] else old(fw.rules)
  {
    var known := fw.GetRule(row.id.value);
    var valid := known == None;
    var action := ActionOf(row.action);
    if action == None {
      return false;
    }
    var status := StatusOf(row.status);
    if status == None {
      return false;
    }
    if row.groups == None {
      valid := false;
    }
    if valid {
      fw.AddRule(Rule(row.id.value, status.value, action.value, row.groups.value));
    }
    loaded := valid;
  }

  ghost predicate IsWord(text: string, word: string) {
    |text| == |word| && forall i :: 0 <= i < |text| ==>
      text[i] == word[i] || Wildcards.SameLetter(text[i], word[i])
  }

  /** The words of a row, in any mixture of cases. */
  ghost predicate SaysAllow(row: RuleObject) { IsWord(row.action, "allow") || IsWord(row.action, "accept") }
  ghost predicate SaysDeny(row: RuleObject) { IsWord(row.action, "drop") || IsWord(row.action, "deny") }
  ghost predicate SaysEnabled(row: RuleObject) { IsWord(row.status, "enable") || IsWord(row.status, "enabled") }
  ghost predicate SaysDisabled(row: RuleObject) { IsWord(row.status, "disable") || IsWord(row.status, "disabled") }

  lemma IEqualIs(text: string, word: string)
    requires forall i :: 0 <= i < |word| ==> 'a' <= word[i] <= 'z'
    ensures IEqual(text, word) <==> IsWord(text, word)
  {
    if |text| == |word| {
      forall i | 0 <= i < |text|
        ensures Wildcards.ToLower(text[i]) == Wildcards.ToLower(word[i]) <==>
          text[i] == word[i] || Wildcards.SameLetter(text[i], word[i])
      {
        Wildcards.ToLowerIs(text[i], word[i]);
      }
    }
  }

  lemma LowerCaseWords()
    ensures forall text, word :: word in {"allow", "accept", "drop", "deny", "enable", "enabled", "disable", "disabled"} ==>
      (IEqual(text, word) <==> IsWord(text, word))
  {
    forall text, word | word in {"allow", "accept", "drop", "deny", "enable", "enabled", "disable", "disabled"}
      ensures IEqual(text, word) <==> IsWord(text, word)
    {
      IEqualIs(text, word);
    }
  }

  /** What the words of a row decide. */
  lemma RowMeans(row: RuleObject)
    ensures ActionOf(row.action) == Some(Allow) <==> SaysAllow(row)
    ensures ActionOf(row.action) == Some(Deny) <==> SaysDeny(row)
    ensures ActionOf(row.action) == None <==> !SaysAllow(row) && !SaysDeny(row)
    ensures StatusOf(row.status) == Some(true) <==> SaysEnabled(row)
    ensures StatusOf(row.status) == Some(false) <==> SaysDisabled(row)
    ensures StatusOf(row.status) == None <==> !SaysEnabled(row) && !SaysDisabled(row)
  {
    LowerCaseWords();
    hide IEqual;
    if SaysEnabled(row) && SaysDisabled(row) {
      FirstLetter(row.status, if |row.status| == 6 then "enable" else "enabled");
      FirstLetter(row.status, if |row.status| == 7 then "disable" else "disabled");
      assert false;
    }
  }

  lemma FirstLetter(text: string, word: string)
    requires IsWord(text, word) && word != ""
    ensures text[0] == word[0] || Wildcards.SameLetter(text[0], word[0])
  {
  }

  /** The rules after the rows, up to the first that cannot be read, were added one by one. */
  ghost function Added(rules: seq<Rule>, rows: seq<RuleObject>): seq<Rule>
    decreases |rows|
  {
    if rows == [] || !Readable(rows[0]) then rules
    else Added(if Acceptable(rules, rows[0]) then rules + [RuleOf(rows[0])] else rules, rows[1..])
  }

  /** A row that does not end the reading: its id is a number from 1 up, and its other columns are in order. */
  ghost predicate InOrder(row: RuleObject) {
    row.readable && match row.id case None => false case Some(id) => id >= 1
  }

  /** A row that can become a rule, if its id is new. */
  ghost predicate Sound(row: RuleObject) {
    InOrder(row) && (SaysAllow(row) || SaysDeny(row)) && (SaysEnabled(row) || SaysDisabled(row)) && row.groups.Some?
  }

  /** The rule that such a row becomes. */
  ghost predicate Makes(row: RuleObject, rule: Rule)
    requires Sound(row)
  {
    && rule.id == row.id.value
    && (rule.action == Allow <==> SaysAllow(row))
    && (rule.enabled <==> SaysEnabled(row))
    && rule.packets == row.groups.value
  }

  /** Row j becomes a rule: it is read, it is sound, and no earlier sound row has its id. */
  ghost predicate Becomes(rows: seq<RuleObject>, j: nat) {
    && j < |rows| && Sound(rows[j])
    && (forall i :: 0 <= i < j ==> InOrder(rows[i]))
    && (forall i :: 0 <= i < j && Sound(rows[i]) ==> rows[i].id != rows[j].id)
  }

  /** The rules made of the first n rows, and the rows that they come from, in order. */
  ghost predicate ComeFrom(rules: seq<Rule>, rows: seq<RuleObject>, from: seq<nat>, n: nat) {
    && |from| == |rules| && Ascending(from)
    && (forall j: nat :: j in from <==> j < n && Becomes(rows, j))
    && (forall i :: 0 <= i < |rules| ==> from[i] < |rows| && Sound(rows[from[i]]) && Makes(rows[from[i]], rules[i]))
  }

  /** The rules that are loaded are exactly those that the file calls for, in the order of the file. */
  lemma LoadedExactly(rows: seq<RuleObject>) returns (from: seq<nat>)
    ensures ComeFrom(Added([], rows), rows, from, |rows|)
  {
    from := AddedFrom(rows, 0, [], []);
    assert rows[0..] == rows;
  }

  lemma {:induction false} AddedFrom(rows: seq<RuleObject>, n: nat, rules: seq<Rule>, before: seq<nat>) returns (from: seq<nat>)
    requires n <= |rows| && ComeFrom(rules, rows, before, n) && forall i :: 0 <= i < n ==> Readable(rows[i])
    ensures ComeFrom(Added(rules, rows[n..]), rows, from, |rows|)
    decreases |rows| - n
  {
    hide Makes, Sound;
    if n == |rows| || !Readable(rows[n]) {
      from := before;
      assert forall j: nat :: n <= j < |rows| ==> !Becomes(rows, j) by { NotSound(rows, n); }
    } else {
      assert rows[n..][0] == rows[n] && rows[n..][1..] == rows[n + 1..];
      OneRow(rows, n, rules, before);
      if Acceptable(rules, rows[n]) {
        from := AddedFrom(rows, n + 1, rules + [RuleOf(rows[n])], before + [n]);
      } else {
        from := AddedFrom(rows, n + 1, rules, before);
      }
    }
  }

  lemma NotSound(rows: seq<RuleObject>, n: nat)
    requires n <= |rows| && (n < |rows| ==> !Readable(rows[n]))
    ensures forall j: nat :: n <= j < |rows| ==> !Becomes(rows, j)
  {
  }

  /** The row is accepted exactly when it becomes a rule. */
  lemma OneRow(rows: seq<RuleObject>, n: nat, rules: seq<Rule>, before: seq<nat>)
    requires n < |rows| && ComeFrom(rules, rows, before, n) && forall i :: 0 <= i <= n ==> Readable(rows[i])
    ensures Acceptable(rules, rows[n]) <==> Becomes(rows, n)
    ensures if Acceptable(rules, rows[n]) then ComeFrom(rules + [RuleOf(rows[n])], rows, before + [n], n + 1)
            else ComeFrom(rules, rows, before, n + 1)
  {
    RowMeans(rows[n]);
    hide SaysAllow, SaysDeny, SaysEnabled, SaysDisabled, ActionOf, StatusOf;
    NewId(rows, n, rules, before);
    assert Acceptable(rules, rows[n]) <==> Becomes(rows, n);
    hide Becomes, Acceptable, Sound;
    if Acceptable(rules, rows[n]) {
      OneMoreRule(rows, n, rules, before, RuleOf(rows[n]));
    }
  }

  lemma OneMoreRule(rows: seq<RuleObject>, n: nat, rules: seq<Rule>, before: seq<nat>, rule: Rule)
    requires n < |rows| && ComeFrom(rules, rows, before, n) && Becomes(rows, n) && Sound(rows[n]) && Makes(rows[n], rule)
    ensures ComeFrom(rules + [rule], rows, before + [n], n + 1)
  {
    hide Becomes, Sound, Makes;
    assert forall j :: 0 <= j < |rules| ==> before[j] in before;
  }

  /** A sound row has a new id exactly when no earlier sound row has it. */
  lemma NewId(rows: seq<RuleObject>, n: nat, rules: seq<Rule>, before: seq<nat>)
    requires n < |rows| && ComeFrom(rules, rows, before, n) && rows[n].id.Some?
    requires forall i :: 0 <= i < n ==> Readable(rows[i])
    ensures (forall i :: 0 <= i < n && Sound(rows[i]) ==> rows[i].id != rows[n].id) <==>
            (forall j :: 0 <= j < |rules| ==> rules[j].id != rows[n].id.value)
  {
    hide SaysAllow, SaysDeny, SaysEnabled, SaysDisabled;
    forall i | 0 <= i < n && Sound(rows[i]) && rows[i].id == rows[n].id
      ensures exists j :: 0 <= j < |rules| && rules[j].id == rows[n].id.value
    {
      var f := FirstSound(rows, i);
      assert f in before;
      var j :| 0 <= j < |before| && before[j] == f;
      assert Makes(rows[f], rules[j]);
    }
    forall j | 0 <= j < |rules| && rules[j].id == rows[n].id.value
      ensures exists i :: 0 <= i < n && Sound(rows[i]) && rows[i].id == rows[n].id
    {
      assert before[j] in before && Makes(rows[before[j]], rules[j]);
    }
  }

  /** The first sound row with the id of row i becomes a rule. */
  lemma {:induction false} FirstSound(rows: seq<RuleObject>, i: nat) returns (f: nat)
    requires i < |rows| && Sound(rows[i]) && forall k :: 0 <= k < i ==> Readable(rows[k])
    ensures f <= i && rows[f].id == rows[i].id && Becomes(rows, f)
  {
    f := i;
    if k :| 0 <= k < i && Sound(rows[k]) && rows[k].id == rows[i].id {
      f := FirstSound(rows, k);
    }
  }

  /** With the deny-all at its end a policy denies whatever the rules before leave open, and nothing else
      changes. */
  lemma DenyAllDecides(t: seq<Node>, rules: seq<Rule>, p: Env)
    requires WellFormed(t) && ValidRules(t, rules)
    ensures ValidRules(t, Enabled(rules)) && ValidRules(t, Enabled(rules + [DENY_ALL]))
    ensures Decision(Rows(t, Enabled(rules + [DENY_ALL])), p) ==
      if Decision(Rows(t, Enabled(rules)), p) == None then Some(Deny) else Decision(Rows(t, Enabled(rules)), p)
  {
    ConstantSets(t);
    EnabledValid(t, rules);
    EnabledValid(t, rules + [DENY_ALL]);
    assert (rules + [DENY_ALL])[..|rules|] == rules;
    var rows := Rows(t, Enabled(rules));
    assert Rows(t, Enabled(rules + [DENY_ALL])) == rows + [Row(0, Deny, AllPackets())];
    DecisionPush(rows, Row(0, Deny, AllPackets()), p);
    assert p in AllPackets();
  }

  /** How many rows are read. */
  function RowsRead(rows: seq<RuleObject>): (n: nat)
    ensures n <= |rows| && (n < |rows| ==> !Readable(rows[n])) && forall i :: 0 <= i < n ==> Readable(rows[i])
  {
    if rows == [] || !Readable(rows[0]) then 0 else 1 + RowsRead(rows[1..])
  }

  datatype LoaderStatus = LoaderStatus(loaded: nat, errors: nat, disabled: int)

  /** FirewallFactory::load_rules. */
  method LoadRules(fw: Firewall, rows: seq<RuleObject>, addImplicitDenyAll: bool) returns (status: LoaderStatus)
    requires fw.Valid()
    modifies fw
    ensures fw.Valid()
    ensures fw.rules == Added(old(fw.rules), rows) + if addImplicitDenyAll then [DENY_ALL] else []
    ensures status.loaded == |Added(old(fw.rules), rows)| - |old(fw.rules)|
    ensures status.loaded + status.errors == RowsRead(rows)
    ensures status.disabled == status.loaded - |Enabled(fw.rules)|
  {
    var loaded, errors := 0, 0;
    var pos := 0;
    ghost var before := fw.rules;
    assert rows[0..] == rows;
    while pos < |rows| && Readable(rows[pos])
      invariant fw.Valid() && 0 <= pos <= |rows|
      invariant Added(fw.rules, rows[pos..]) == Added(before, rows)
      invariant loaded == |fw.rules| - |before| && loaded >= 0 && errors >= 0
      invariant loaded + errors == pos && pos + RowsRead(rows[pos..]) == RowsRead(rows)
    {
      assert rows[pos..][0] == rows[pos] && rows[pos..][1..] == rows[pos + 1..];
      var ok := AddRow(fw, rows[pos]);
      if ok {
        loaded := loaded + 1;
      } else {
        errors := errors + 1;
      }
      pos := pos + 1;
    }
    if addImplicitDenyAll {
      fw.AddRule(DENY_ALL);
    }
    var acl := Acl(fw.rules);
    status := LoaderStatus(loaded, errors, loaded - |acl|);
  }

  /** The guard on ids, and the ids that are refused, keep all ids apart. */
  lemma {:induction false} AddedUnique(rules: seq<Rule>, rows: seq<RuleObject>)
    requires UniqueIds(rules) && forall i :: 0 <= i < |rules| ==> rules[i].id > 0
    ensures UniqueIds(Added(rules, rows)) && forall i :: 0 <= i < |Added(rules, rows)| ==> Added(rules, rows)[i].id > 0
    decreases |rows|
  {
    if rows != [] && Readable(rows[0]) {
      AddedUnique(if Acceptable(rules, rows[0]) then rules + [RuleOf(rows[0])] else rules, rows[1..]);
    }
  }

  /** The policy decides as the loaded rules do where they decide, and denies everything else. */
  ghost predicate DeniesTheRest(t: seq<Node>, loaded: seq<Rule>, policy: seq<Rule>)
    requires WellFormed(t)
  {
    && ValidRules(t, Enabled(loaded)) && ValidRules(t, Enabled(policy))
    && forall p :: Decision(Rows(t, Enabled(policy)), p) ==
         if Decision(Rows(t, Enabled(loaded)), p) == None then Some(Deny) else Decision(Rows(t, Enabled(loaded)), p)
  }

  lemma AllDeniedTheRest(t: seq<Node>, loaded: seq<Rule>)
    requires WellFormed(t) && ValidRules(t, loaded)
    ensures DeniesTheRest(t, loaded, loaded + [DENY_ALL])
  {
    hide Decision, Rows, Enabled;
    DenyAllDecides(t, loaded, {});
    forall p
      ensures Decision(Rows(t, Enabled(loaded + [DENY_ALL])), p) ==
        if Decision(Rows(t, Enabled(loaded)), p) == None then Some(Deny) else Decision(Rows(t, Enabled(loaded)), p)
    {
      DenyAllDecides(t, loaded, p);
    }
  }

  /** Loading a file into the current firewall: what was there before is cleared. */
  method Load(fw: Firewall, rows: seq<RuleObject>, addImplicitDenyAll: bool) returns (status: LoaderStatus)
    requires fw.Valid()
    modifies fw
    ensures fw.Valid() && UniqueIds(fw.rules)
    ensures fw.rules == Added([], rows) + if addImplicitDenyAll then [DENY_ALL] else []
    ensures addImplicitDenyAll ==> forall t :: WellFormed(t) && ValidRules(t, Added([], rows)) ==>
      DeniesTheRest(t, Added([], rows), fw.rules)
  {
    forall t | WellFormed(t) && ValidRules(t, Added([], rows))
      ensures DeniesTheRest(t, Added([], rows), Added([], rows) + [DENY_ALL])
    {
      AllDeniedTheRest(t, Added([], rows));
    }
    fw.Clear();
    AddedUnique([], rows);
    status := LoadRules(fw, rows, addImplicitDenyAll);
  }

  /** RuleList::filter. */
  function Selected(rules: seq<Rule>, keep: Rule -> bool): seq<Rule> {
    if rules == [] then []
    else
      var rest := Selected(rules[..|rules| - 1], keep);
      if keep(rules[|rules| - 1]) then rest + [rules[|rules| - 1]] else rest
  }

  method Filter(rules: seq<Rule>, keep: Rule -> bool) returns (kept: seq<Rule>)
    ensures kept == Selected(rules, keep)
  {
    kept := [];
    for i := 0 to |rules|
      invariant kept == Selected(rules[..i], keep)
    {
      assert rules[..i + 1][..i] == rules[..i];
      if keep(rules[i]) {
        kept := kept + [rules[i]];
      }
    }
    assert rules[..|rules|] == rules;
  }

  /** What a filter keeps comes from the list, and its ids are as distinct as before. */
  lemma {:induction false} SelectedUnique(rules: seq<Rule>, keep: Rule -> bool)
    requires UniqueIds(rules)
    ensures UniqueIds(Selected(rules, keep))
    ensures forall rule :: rule in Selected(rules, keep) <==> rule in rules && keep(rule)
  {
    if rules != [] {
      var last := |rules| - 1;
      SelectedUnique(rules[..last], keep);
      assert rules == rules[..last] + [rules[last]];
      var rest := Selected(rules[..last], keep);
      forall i | 0 <= i < |rest| ensures rest[i].id != rules[last].id {
        assert rest[i] in rules[..last];
      }
    }
  }

  lemma {:induction false} EnabledIsSelected(rules: seq<Rule>)
    ensures Enabled(rules) == Selected(rules, (rule: Rule) => rule.enabled)
  {
    if rules != [] { EnabledIsSelected(rules[..|rules| - 1]); }
  }

  /** In every list that the analysis is given the ids tell the rules apart. */
  lemma IdsToldApart(t: seq<Node>, rules: seq<Rule>, keep: Rule -> bool)
    requires WellFormed(t) && ValidRules(t, rules) && UniqueIds(rules)
    ensures ValidRules(t, Selected(Enabled(rules), keep))
    ensures DistinctIds(Rows(t, Selected(Enabled(rules), keep)))
  {
    EnabledIsSelected(rules);
    SelectedUnique(rules, (rule: Rule) => rule.enabled);
    SelectedUnique(Enabled(rules), keep);
    var acl := Selected(Enabled(rules), keep);
    forall i | 0 <= i < |acl| ensures acl[i].packets < |t| {
      assert acl[i] in Enabled(rules);
      assert acl[i] in rules;
    }
  }

  /** Where the analysis has nothing to report, the rule's packets get the rule's action. */
  ghost predicate Trustworthy(rows: seq<Row>, reports: seq<RuleAnomaly>) {
    forall n: nat, p :: n < |rows| && !Skipped(rows, n) && (forall a :: a in reports ==> a.rule != n) && p in rows[n].packets ==>
      Decision(rows, p) == Some(rows[n].action)
  }

  /** The anomaly command: the enabled rules, filtered by zones or not, are analysed. */
  method CheckFirewall(k: Kernel, fw: Firewall, zones: Rule -> bool)
    returns (acl: seq<Rule>, anomalies: seq<RuleAnomaly>, missingDenyAll: bool)
    requires k.Valid() && fw.Valid() && UniqueIds(fw.rules) && ValidRules(k.nodes, fw.rules)
    modifies k
    ensures k.Valid() && k.Kept()
    ensures acl == Selected(Enabled(fw.rules), zones) && ValidRules(k.nodes, acl)
    ensures anomalies == Reports(Rows(k.nodes, acl), |acl|)
    ensures DistinctIds(Rows(k.nodes, acl)) && Trustworthy(Rows(k.nodes, acl), anomalies)
    ensures missingDenyAll <==> Enabled(fw.rules) != [] && !AllDecided(Rows(k.nodes, acl))
  {
    hide k.Valid, WellFormed, Reports, AllDecided;
    acl := Acl(fw.rules);
    IdsToldApart(k.nodes, fw.rules, zones);
    TrustReports(Rows(k.nodes, Selected(acl, zones)));
    if |acl| == 0 {
      NoReports(k.nodes);
      return [], [], false;
    }
    acl := Filter(acl, zones);
    ghost var t := k.nodes;
    anomalies, missingDenyAll := CheckAnomaly(k, acl);
    ExtendRows(t, k.nodes, acl);
  }

  lemma NoReports(t: seq<Node>)
    requires WellFormed(t)
    ensures Rows(t, []) == [] && Reports([], 0) == []
  {
  }

  lemma TrustReports(rows: seq<Row>)
    requires DistinctIds(rows)
    ensures Trustworthy(rows, Reports(rows, |rows|))
  {
    forall n: nat, p | n < |rows| && !Skipped(rows, n) && (forall a :: a in Reports(rows, |rows|) ==> a.rule != n) && p in rows[n].packets
      ensures Decision(rows, p) == Some(rows[n].action)
    {
      SilentRule(rows, n, p);
    }
  }

  /** From the file to the reports, without a condition on the ids in the file: silence about a rule of the
      loaded policy is sound. */
  method LoadAndCheck(k: Kernel, file: seq<RuleObject>, addImplicitDenyAll: bool, zones: Rule -> bool)
    returns (acl: seq<Rule>, anomalies: seq<RuleAnomaly>, missingDenyAll: bool)
    requires k.Valid() && forall row :: row in file && row.groups.Some? ==> row.groups.value < |k.nodes|
    modifies k
    ensures k.Valid() && k.Kept() && ValidRules(k.nodes, acl)
    ensures acl == Selected(Enabled(Added([], file) + if addImplicitDenyAll then [DENY_ALL] else []), zones)
    ensures anomalies == Reports(Rows(k.nodes, acl), |acl|) && Trustworthy(Rows(k.nodes, acl), anomalies)
    ensures var policy := Added([], file) + if addImplicitDenyAll then [DENY_ALL] else [];
      missingDenyAll <==> Enabled(policy) != [] && !AllDecided(Rows(k.nodes, acl))
  {
    hide k.Valid, WellFormed, Reports, AllDecided, Trustworthy;
    Constants(k.nodes);
    var fw := new Firewall();
    var status := Load(fw, file, addImplicitDenyAll);
    AddedValid(k.nodes, [], file);
    acl, anomalies, missingDenyAll := CheckFirewall(k, fw, zones);
  }

  lemma {:induction false} AddedValid(t: seq<Node>, rules: seq<Rule>, rows: seq<RuleObject>)
    requires ValidRules(t, rules) && forall row :: row in rows && row.groups.Some? ==> row.groups.value < |t|
    ensures ValidRules(t, Added(rules, rows))
    decreases |rows|
  {
    if rows != [] && Readable(rows[0]) {
      AddedValid(t, if Acceptable(rules, rows[0]) then rules + [RuleOf(rows[0])] else rules, rows[1..]);
    }
  }
}
