/** Saving a diagram to a file of integers, and loading it again. */
module BddIo {
  import opened Table
  import opened Meaning
  import opened Substitution
  import opened Kernel
  import opened Records
  import opened SaveOps
  import opened LoadTable
  import IteOps

  /** The numbers before the records: how many there are, and the place of each variable in the order. */
  function Header(n: nat, varnum: nat): (header: seq<int>)
    ensures |header| == 2 + varnum
  {
    [n, varnum] + seq(varnum, v => v)
  }

  /** What a saved file looks like. */
  ghost predicate IsSaved(t: seq<Node>, r: nat, file: seq<int>, records: seq<Record>)
    requires WellFormed(t) && r < |t|
  {
    if r < 2 then file == [0, 0, r] && records == []
    else
      && file == Header(|records|, t[0].level) + Flat(records)
      && ChildrenFirst(t, records)
      && Keys(records) == Reach(t, r)
      && |records| > 0 && records[|records| - 1].key == r
  }

  /** Children-first records give every key the meaning of its node. */
  lemma {:induction false} SavedValue(t: seq<Node>, records: seq<Record>, key: nat, env: Env)
    requires WellFormed(t) && ChildrenFirst(t, records) && key < |t| && (key < 2 || key in Keys(records))
    ensures Known(records, key)
    ensures Value(records, key, env) == Eval(t, key, env)
    decreases |records|
  {
    if key >= 2 {
      var j := LastWith(records, key);
      assert ChildrenBefore(t, records, j);
      ChildrenFirstPrefix(t, records, j);
      LevelBound(t, key);
      SavedValue(t, records[..j], t[key].low, env);
      SavedValue(t, records[..j], t[key].high, env);
    }
  }

  lemma SavedLoadable(t: seq<Node>, records: seq<Record>)
    requires WellFormed(t) && ChildrenFirst(t, records)
    ensures Loadable(records, t[0].level)
  {
    forall j | 0 <= j < |records| ensures LoadableAt(records, t[0].level, j) {
      assert ChildrenBefore(t, records, j);
      ChildrenFirstPrefix(t, records, j);
      LevelBound(t, records[j].key);
      SavedValue(t, records[..j], records[j].low, {});
      SavedValue(t, records[..j], records[j].high, {});
    }
  }

  /** As many records as nodes: none is written twice. */
  lemma {:induction false} RecordCount(t: seq<Node>, records: seq<Record>)
    requires ChildrenFirst(t, records)
    ensures |Keys(records)| == |records|
  {
    if records != [] {
      var last := |records| - 1;
      assert ChildrenBefore(t, records, last);
      ChildrenFirstPrefix(t, records, last);
      RecordCount(t, records[..last]);
      assert records == records[..last] + [records[last]];
      KeysPush(records[..last], records[last]);
    }
  }

  /** No mark bit of the table is set. */
  predicate Unmarked(k: Kernel, marks: array<bool>)
    reads k, marks
  {
    marks.Length == |k.nodes| && forall i :: 0 <= i < marks.Length ==> !marks[i]
  }

  /** bdd_save.  The mark bits are set and cleared for the count, and again for the records. */
  method Save(k: Kernel, r: nat, marks: array<bool>) returns (ofile: seq<int>, ghost records: seq<Record>)
    requires k.Valid() && k.IsBdd(r) && Unmarked(k, marks)
    modifies marks
    ensures Unmarked(k, marks)
    ensures IsSaved(k.nodes, r, ofile, records)
    ensures r < 2 ==> ofile == [0, 0, r]
    ensures r >= 2 ==> |ofile| == 2 + k.varnum + 4 * |Reach(k.nodes, r)|
    ensures r >= 2 ==> ofile[..2 + k.varnum] == Header(|Reach(k.nodes, r)|, k.varnum)
  {
    hide k.Valid, WellFormed, ChildrenFirst, Keys, Reach, Flat, MarksClosed, ClearClosed;
    if r < 2 {
      return [0, 0, r], [];
    }
    NoMarks(k.nodes, r, marks[..]);
    var n := MarkCount(k.nodes, r, marks, 0);
    AllMarks(k.nodes, r, marks[..]);
    Unmark(k.nodes, r, marks);
    ofile := [n, k.varnum];
    for v := 0 to k.varnum
      invariant ofile == [n, k.varnum] + seq(v, i => i)
    {
      ofile := ofile + [v];
    }
    ghost var header := ofile;
    NoRecords(k.nodes, header);
    ofile, records := SaveRec(k.nodes, r, marks, ofile, header, []);
    AllMarks(k.nodes, r, marks[..]);
    Unmark(k.nodes, r, marks);
    NothingSet(marks[..]);
    RecordCount(k.nodes, records);
    FlatSize(records);
  }

  lemma NoMarks(t: seq<Node>, r: nat, bits: seq<bool>)
    requires WellFormed(t) && r < |t| && forall i :: 0 <= i < |bits| ==> !bits[i]
    ensures Marked(bits) == {} && MarksClosed(t, r, {})
  {
  }

  lemma NothingSet(bits: seq<bool>)
    requires Marked(bits) == {}
    ensures forall i :: 0 <= i < |bits| ==> !bits[i]
  {
    assert forall i: nat :: i in Marked(bits) <==> i < |bits| && bits[i];
  }

  lemma AllMarks(t: seq<Node>, r: nat, bits: seq<bool>)
    requires WellFormed(t) && r < |t| && Marked(bits) == Reach(t, r)
    ensures ClearClosed(t, r, Marked(bits)) && Reach(t, r) - Reach(t, r) == {}
    ensures Reach(t, r) - {} == Reach(t, r)
  {
  }

  lemma NoRecords(t: seq<Node>, header: seq<int>)
    ensures Keys([]) == {} && ChildrenFirst(t, []) && header + Flat([]) == header
  {
  }

  /** The nodes that stand for the records read so far. */
  ghost predicate Loaded(t: seq<Node>, records: seq<Record>, keys: seq<nat>, values: seq<int>)
    requires WellFormed(t)
  {
    && |keys| == |values| == |records|
    && forall j :: 0 <= j < |records| ==> keys[j] == records[j].key && LoadedAt(t, records, j, values[j])
  }

  ghost predicate LoadedAt(t: seq<Node>, records: seq<Record>, j: nat, node: int)
    requires WellFormed(t) && j < |records|
  {
    0 <= node < |t| && forall env :: Eval(t, node, env) == RecordValue(records, j, env)
  }

  lemma ExtendLoaded(t: seq<Node>, t': seq<Node>, records: seq<Record>, keys: seq<nat>, values: seq<int>)
    requires WellFormed(t) && WellFormed(t') && t <= t' && Loaded(t, records, keys, values)
    ensures Loaded(t', records, keys, values)
  {
    ExtendAll(t, t');
    forall j | 0 <= j < |records| ensures LoadedAt(t', records, j, values[j]) {
      assert LoadedAt(t, records, j, values[j]);
    }
  }

  lemma {:induction false} PositionIsLast(records: seq<Record>, keys: seq<nat>, key: int)
    requires |keys| == |records| && forall j :: 0 <= j < |records| ==> keys[j] == records[j].key
    ensures Position(keys, key) == LastWith(records, key)
  {
    if keys != [] { PositionIsLast(records[..|records| - 1], keys[..|keys| - 1], key); }
  }

  /** What the loader takes for a child: a constant, or the node on file for the key. */
  ghost function Child(keys: seq<nat>, values: seq<int>, key: int): int
    requires |keys| == |values|
  {
    if key < 2 then key else if Position(keys, key) < 0 then -1 else values[Position(keys, key)]
  }

  lemma ChildValue(t: seq<Node>, records: seq<Record>, keys: seq<nat>, values: seq<int>, key: int)
    requires WellFormed(t) && Loaded(t, records, keys, values)
    ensures Child(keys, values, key) >= 0 <==> Known(records, key)
    ensures Known(records, key) ==> Child(keys, values, key) < |t|
    ensures Known(records, key) ==> forall env :: Eval(t, Child(keys, values, key), env) == Value(records, key, env)
  {
    PositionIsLast(records, keys, key);
    Constants(t);
    if key >= 2 && LastWith(records, key) >= 0 {
      assert LoadedAt(t, records, LastWith(records, key), values[LastWith(records, key)]);
    }
  }

  /** One more record. */
  lemma LoadStep(t: seq<Node>, t': seq<Node>, records: seq<Record>, n: nat, keys: seq<nat>, values: seq<int>,
                 v: nat, low: nat, high: nat, root: nat)
    requires WellFormed(t) && WellFormed(t') && t <= t' && n < |records| && records[n].key >= 0
    requires Loaded(t, records[..n], keys, values)
    requires LoadableAt(records, t[0].level, n) && IsVar(t, records[n].var_, v)
    requires low == Child(keys, values, records[n].low) && high == Child(keys, values, records[n].high)
    requires IsIte(t', v, high, low, root)
    ensures Loaded(t', records[..n + 1], keys + [records[n].key], values + [root])
  {
    var more := records[..n + 1];
    assert more[..n] == records[..n];
    ChildValue(t, records[..n], keys, values, records[n].low);
    ChildValue(t, records[..n], keys, values, records[n].high);
    ExtendLoaded(t, t', records[..n], keys, values);
    ExtendAll(t, t');
    forall j | 0 <= j < n + 1
      ensures (keys + [records[n].key])[j] == more[j].key && LoadedAt(t', more, j, (values + [root])[j])
    {
      if j < n {
        assert LoadedAt(t', records[..n], j, values[j]);
        forall env ensures RecordValue(more, j, env) == RecordValue(records[..n], j, env) {
          RecordValuePrefix(more, n, j, env);
        }
      } else {
        forall env ensures Eval(t', root, env) == RecordValue(more, n, env) {
          VarMeaning(t, records[n].var_, v, env);
        }
      }
    }
  }

  /** Negative keys would index the hash table outside its bounds. */
  ghost predicate KeysUsable(file: seq<int>, pos: nat, n: nat) {
    forall j :: 0 <= j < n && pos + 4 * j < |file| ==> file[pos + 4 * j] >= 0
  }

  /** The records are all there, and each mentions what it may. */
  ghost predicate Complete(file: seq<int>, pos: nat, n: nat, varnum: nat) {
    pos + 4 * n <= |file| && Loadable(Parsed(file, pos, n), varnum)
  }

  lemma ParsedPrefix(file: seq<int>, pos: nat, n: nat, m: nat)
    requires n <= m && pos + 4 * m <= |file|
    ensures Parsed(file, pos, m)[..n] == Parsed(file, pos, n)
  {
  }

  /** The file is complete up to record n + 1 if it is up to n and that record is in order. */
  lemma CompleteStep(file: seq<int>, pos: nat, n: nat, m: nat, varnum: nat)
    requires n < m && pos + 4 * n + 4 <= |file|
    ensures Complete(file, pos, n + 1, varnum) <==>
      Complete(file, pos, n, varnum) && LoadableAt(Parsed(file, pos, n + 1), varnum, n)
    ensures Complete(file, pos, m, varnum) ==> Complete(file, pos, n + 1, varnum)
  {
    var here := Parsed(file, pos, n + 1);
    ParsedPrefix(file, pos, n, n + 1);
    forall j | 0 <= j < n ensures LoadableAt(here, varnum, j) <==> LoadableAt(Parsed(file, pos, n), varnum, j) {
      assert Parsed(file, pos, n)[..j] == here[..j];
    }
    if Complete(file, pos, m, varnum) {
      var all := Parsed(file, pos, m);
      ParsedPrefix(file, pos, n + 1, m);
      forall j | 0 <= j < n + 1 ensures LoadableAt(here, varnum, j) {
        assert LoadableAt(all, varnum, j);
        assert all[..j] == here[..j];
      }
    }
  }

  /** bdd_loaddata: -1 times the error, or the node of the last record. */
  method LoadData(k: Kernel, ifile: seq<int>, pos: nat, nodenum: nat) returns (root: int)
    requires k.Valid() && nodenum > 0 && pos <= |ifile|
    requires KeysUsable(ifile, pos, nodenum)
    modifies k
    ensures k.Valid() && k.Kept()
    ensures root >= 0 <==> Complete(ifile, pos, nodenum, k.varnum)
    ensures root >= 0 ==> LoadedAt(k.nodes, Parsed(ifile, pos, nodenum), nodenum - 1, root)
    ensures root < 0 ==> root == BDD_FORMAT || root == BDD_VAR
  {
    hide k.Valid, WellFormed, Eval, Loaded, Loadable, LoadedAt, Value, Complete, Parsed;
    root := 0;
    Constants(k.nodes);
    var table := new LoadTable(nodenum);
    NothingLoaded(k.nodes, ifile, pos);
    for n := 0 to nodenum
      invariant k.Valid() && k.Kept()
      invariant table.Valid() && fresh(table) && fresh(table.table)
      invariant table.table.Length == nodenum && |table.keys| == n
      invariant pos + 4 * n <= |ifile| && Complete(ifile, pos, n, k.varnum)
      invariant Loaded(k.nodes, Parsed(ifile, pos, n), table.keys, table.values)
      invariant n > 0 ==> LoadedAt(k.nodes, Parsed(ifile, pos, n), n - 1, root) && root >= 0
    {
      if pos + 4 * n + 4 > |ifile| {
        TooShort(ifile, pos, n, nodenum, k.varnum);
        return BDD_FORMAT;
      }
      CompleteStep(ifile, pos, n, nodenum, k.varnum);
      KeyUsable(ifile, pos, n, nodenum);
      root := LoadRecord(k, ifile, pos, n, table);
      if root < 0 {
        return;
      }
    }
  }

  lemma KeyUsable(file: seq<int>, pos: nat, n: nat, m: nat)
    requires KeysUsable(file, pos, m) && n < m && pos + 4 * n < |file|
    ensures file[pos + 4 * n] >= 0
  {
  }

  lemma TooShort(file: seq<int>, pos: nat, n: nat, m: nat, varnum: nat)
    requires n < m && pos + 4 * n + 4 > |file|
    ensures !Complete(file, pos, m, varnum)
  {
  }

  /** One record: its children are looked up, and its node is built and filed under its key. */
  method LoadRecord(k: Kernel, ifile: seq<int>, pos: nat, n: nat, table: LoadTable) returns (root: int)
    requires k.Valid()
    requires table.Valid() && |table.keys| == n < table.table.Length
    requires pos + 4 * n + 4 <= |ifile| && ifile[pos + 4 * n] >= 0
    requires Loaded(k.nodes, Parsed(ifile, pos, n), table.keys, table.values)
    modifies k, table, table.table
    ensures k.Valid() && k.Kept()
    ensures table.Valid() && table.table == old(table.table)
    ensures root >= 0 <==> LoadableAt(Parsed(ifile, pos, n + 1), k.varnum, n)
    ensures root >= 0 ==> |table.keys| == n + 1
    ensures root >= 0 ==> Loaded(k.nodes, Parsed(ifile, pos, n + 1), table.keys, table.values)
    ensures root >= 0 ==> LoadedAt(k.nodes, Parsed(ifile, pos, n + 1), n, root)
    ensures root < 0 ==>
      var before := Parsed(ifile, pos, n);
      var known := Known(before, ifile[pos + 4 * n + 2]) && Known(before, ifile[pos + 4 * n + 3]);
      root == if known && ifile[pos + 4 * n + 1] >= 0 then BDD_VAR else BDD_FORMAT
  {
    hide k.Valid, table.Valid, WellFormed, Eval, Loaded, LoadedAt, Known, Value, Child;
    ghost var records := Parsed(ifile, pos, n + 1);
    ParsedPrefix(ifile, pos, n, n + 1);
    var key, v, low, high := ifile[pos + 4 * n], ifile[pos + 4 * n + 1], ifile[pos + 4 * n + 2], ifile[pos + 4 * n + 3];
    LoadedSize(k.nodes, records[..n], table.keys, table.values);
    ChildValue(k.nodes, records[..n], table.keys, table.values, low);
    ChildValue(k.nodes, records[..n], table.keys, table.values, high);
    low := Fetch(table, low);
    high := Fetch(table, high);
    if low < 0 || high < 0 || v < 0 {
      return BDD_FORMAT;
    }
    var b, err := k.IthVar(v);
    if err != 0 {
      return BDD_VAR;
    }
    ghost var t := k.nodes;
    VarInTable(t, v, b);
    root, err := IteOps.Ite(k, b, high, low);
    LoadStep(t, k.nodes, records, n, table.keys, table.values, b, low, high, root);
    table.Add(key, root);
    assert records[..n + 1] == records;
    LastLoaded(k.nodes, records, table.keys, table.values, n);
  }

  method Fetch(table: LoadTable, key: int) returns (node: int)
    requires table.Valid() && |table.keys| == |table.values|
    ensures node == Child(table.keys, table.values, key)
  {
    node := key;
    if key >= 2 {
      node := table.Get(key);
    }
  }

  lemma VarInTable(t: seq<Node>, v: nat, b: nat)
    requires WellFormed(t) && IsVar(t, v, b)
    ensures b < |t|
  {
  }

  lemma LoadedSize(t: seq<Node>, records: seq<Record>, keys: seq<nat>, values: seq<int>)
    requires WellFormed(t) && Loaded(t, records, keys, values)
    ensures |keys| == |values| == |records|
  {
  }

  lemma LastLoaded(t: seq<Node>, records: seq<Record>, keys: seq<nat>, values: seq<int>, j: nat)
    requires WellFormed(t) && j < |records| && Loaded(t, records, keys, values)
    ensures |keys| == |values| == |records| && LoadedAt(t, records, j, values[j])
  {
  }

  lemma NothingLoaded(t: seq<Node>, file: seq<int>, pos: nat)
    requires WellFormed(t) && pos <= |file|
    ensures Complete(file, pos, 0, t[0].level) && Loaded(t, Parsed(file, pos, 0), [], [])
  {
  }

  /** Header numbers that the loader can work with: a constant, or some records. */
  ghost predicate Usable(file: seq<int>) {
    |file| >= 2 && !(file[0] == 0 && file[1] == 0) ==>
      file[0] > 0 && file[1] >= 0 && KeysUsable(file, 2 + file[1], file[0])
  }

  ghost predicate HasRecords(file: seq<int>) {
    |file| >= 2 && file[0] > 0 && file[1] >= 0
  }

  /** What a file with records means. */
  ghost predicate Denotes(t: seq<Node>, file: seq<int>, varnum: nat, root: int)
    requires WellFormed(t)
  {
    && |file| >= 2 && file[0] > 0 && file[1] >= 0
    && Complete(file, 2 + file[1], file[0], varnum)
    && LoadedAt(t, Parsed(file, 2 + file[1], file[0]), file[0] - 1, root)
  }

  /** bdd_load.  The file may bring more variables.  The caller's root is left alone when the file of a constant
      ends too early. */
  method Load(k: Kernel, ifile: seq<int>, oldRoot: int) returns (root: int, err: int)
    requires k.Valid() && Usable(ifile)
    modifies k
    ensures k.Valid() && k.Widened()
    ensures !HasRecords(ifile) || ifile[1] <= old(k.varnum) || ifile[1] > MAXVAR ==> k.Kept()
    ensures k.varnum == if HasRecords(ifile) && old(k.varnum) < ifile[1] <= MAXVAR then ifile[1] else old(k.varnum)
    ensures |ifile| < 2 ==> err == BDD_FORMAT && root == oldRoot
    ensures |ifile| >= 2 && ifile[0] == 0 && ifile[1] == 0 ==>
      err == 0 && root == if |ifile| > 2 then ifile[2] else oldRoot
    ensures HasRecords(ifile) ==> (err == BDD_RANGE <==> ifile[1] > MAXVAR)
    ensures HasRecords(ifile) && err != BDD_RANGE ==>
      (err == 0 <==> Complete(ifile, 2 + ifile[1], ifile[0], k.varnum))
    ensures HasRecords(ifile) && err == 0 ==> Denotes(k.nodes, ifile, k.varnum, root)
    ensures HasRecords(ifile) && err != 0 ==> root == 0 && (err == BDD_FORMAT || err == BDD_VAR || err == BDD_RANGE)
  {
    hide k.Valid, WellFormed, Eval, LoadedAt, Complete, KeysUsable, HasCount;
    if |ifile| < 2 {
      return oldRoot, BDD_FORMAT;
    }
    var nodenum, vnum := ifile[0], ifile[1];
    if nodenum == 0 && vnum == 0 {
      return if |ifile| > 2 then ifile[2] else oldRoot, 0;
    }
    if vnum > k.varnum {
      err := k.SetVarNum(vnum);
      if err != 0 {
        return 0, err;
      }
    }
    var pos := 2 + vnum;
    if pos > |ifile| {
      TooShort(ifile, pos, 0, nodenum, k.varnum);
      return 0, BDD_FORMAT;
    }
    root := LoadData(k, ifile, pos, nodenum);
    if root < 0 {
      return 0, root;
    }
    err := 0;
  }

  /** Loading what was saved gives the same function of the variables, in whatever table. */
  method LoadSaved(k: Kernel, ifile: seq<int>, ghost t: seq<Node>, ghost r: nat, ghost records: seq<Record>)
    returns (root: nat, err: int)
    requires k.Valid()
    requires WellFormed(t) && r < |t| && t[0].level <= MAXVAR && IsSaved(t, r, ifile, records)
    modifies k
    ensures k.Valid() && k.Widened() && (t[0].level <= old(k.varnum) ==> k.Kept())
    ensures err == 0 && root < |k.nodes| && forall env :: Eval(k.nodes, root, env) == Eval(t, r, env)
  {
    hide k.Valid, Complete, LoadedAt, ChildrenFirst, Keys, Reach, Usable, Denotes, k.Kept, k.Widened;
    SavedUsable(t, r, ifile, records, if t[0].level > k.varnum then t[0].level else k.varnum);
    var loaded;
    loaded, err := Load(k, ifile, 0);
    SavedDenotes(t, r, ifile, records, k.nodes, k.varnum, loaded);
    root := loaded;
  }

  lemma SavedUsable(t: seq<Node>, r: nat, file: seq<int>, records: seq<Record>, varnum: nat)
    requires WellFormed(t) && r < |t| && t[0].level <= varnum && IsSaved(t, r, file, records)
    ensures Usable(file)
    ensures r >= 2 ==> |file| >= 2 && file[0] == |records| > 0 && file[1] == t[0].level
    ensures r >= 2 ==> Complete(file, 2 + file[1], file[0], varnum) && Parsed(file, 2 + file[1], file[0]) == records
  {
    if r >= 2 {
      hide WellFormed, ChildrenFirst, Keys, Reach, Loadable, KeysUsable, Flat, Parsed, Header;
      HeaderNumbers(|records|, t[0].level, Flat(records));
      FlatParsed(Header(|records|, t[0].level), records);
      FlatSize(records);
      SavedLoadable(t, records);
      MoreVariables(records, t[0].level, varnum);
      SavedKeys(t, records, file, 2 + t[0].level);
    }
  }

  lemma HeaderNumbers(n: nat, varnum: nat, rest: seq<int>)
    ensures var file := Header(n, varnum) + rest; |file| >= 2 && file[0] == n && file[1] == varnum
  {
  }

  lemma MoreVariables(records: seq<Record>, varnum: nat, more: nat)
    requires varnum <= more && Loadable(records, varnum)
    ensures Loadable(records, more)
  {
    forall j | 0 <= j < |records| ensures LoadableAt(records, more, j) {
      assert LoadableAt(records, varnum, j);
    }
  }

  lemma SavedKeys(t: seq<Node>, records: seq<Record>, file: seq<int>, pos: nat)
    requires ChildrenFirst(t, records) && pos + 4 * |records| <= |file| && Parsed(file, pos, |records|) == records
    ensures KeysUsable(file, pos, |records|)
  {
    forall j | 0 <= j < |records| ensures file[pos + 4 * j] >= 0 {
      assert ChildrenBefore(t, records, j);
      assert Parsed(file, pos, |records|)[j].key == file[pos + 4 * j];
    }
  }

  lemma SavedDenotes(t: seq<Node>, r: nat, file: seq<int>, records: seq<Record>, t': seq<Node>, varnum: nat, root: int)
    requires WellFormed(t) && WellFormed(t') && r < |t| && IsSaved(t, r, file, records)
    requires if r < 2 then root == r else t[0].level <= varnum && Denotes(t', file, varnum, root)
    ensures 0 <= root < |t'| && forall env :: Eval(t', root, env) == Eval(t, r, env)
  {
    Constants(t);
    Constants(t');
    if r >= 2 {
      SavedUsable(t, r, file, records, varnum);
      var last := |records| - 1;
      assert LastWith(records, r) == last;
      forall env ensures Eval(t', root, env) == Eval(t, r, env) {
        LastKey(records, r);
        SavedValue(t, records, r, env);
      }
    }
  }

  lemma LastKey(records: seq<Record>, key: int)
    requires |records| > 0 && records[|records| - 1].key == key
    ensures key in Keys(records)
  {
  }

  /** In the table it came from, the very same node. */
  method RoundTrip(k: Kernel, r: nat, marks: array<bool>) returns (root: nat)
    requires k.Valid() && k.IsBdd(r) && Unmarked(k, marks)
    modifies k, marks
    ensures k.Valid() && k.Kept()
    ensures root == r
  {
    hide k.Valid, WellFormed, Eval, IsSaved;
    ghost var t := k.nodes;
    var file, records := Save(k, r, marks);
    var err;
    root, err := LoadSaved(k, file, t, r, records);
    ExtendAll(t, k.nodes);
    Canonical(k.nodes, root, r);
  }
}
