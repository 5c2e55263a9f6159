/** Marking, counting and saving the nodes below a root. */
module SaveOps {
  import opened Table
  import opened Records

  /** The inner nodes that can be reached from n, n itself included. */
  ghost function Reach(t: seq<Node>, n: nat): set<nat>
    requires WellFormed(t) && n < |t|
    decreases t[0].level - t[n].level
  {
    if n < 2 then {}
    else
      assert InnerOk(t, n);
      {n} + Reach(t, t[n].low) + Reach(t, t[n].high)
  }

  lemma {:induction false} ReachBelow(t: seq<Node>, n: nat)
    requires WellFormed(t) && n < |t|
    ensures forall j :: j in Reach(t, n) ==> 2 <= j < |t| && t[n].level <= t[j].level
    ensures forall j :: j in Reach(t, n) ==> Reach(t, j) <= Reach(t, n)
    decreases t[0].level - t[n].level
  {
    if n >= 2 {
      assert InnerOk(t, n);
      ReachBelow(t, t[n].low);
      ReachBelow(t, t[n].high);
    }
  }

  /** Below an inner node it is not met again. */
  lemma ReachSplit(t: seq<Node>, n: nat)
    requires WellFormed(t) && 2 <= n < |t|
    ensures InnerOk(t, n)
    ensures Reach(t, n) == {n} + Reach(t, t[n].low) + Reach(t, t[n].high)
    ensures n !in Reach(t, t[n].low) && n !in Reach(t, t[n].high)
  {
    LevelBound(t, n);
    ReachBelow(t, t[n].low);
    ReachBelow(t, t[n].high);
  }

  /** The nodes whose mark bit is set. */
  ghost function Marked(bits: seq<bool>): set<nat> {
    set i: nat | i < |bits| && bits[i]
  }

  /** A mark below i means that everything below it is marked. */
  ghost predicate MarksClosed(t: seq<Node>, i: nat, marked: set<nat>)
    requires WellFormed(t) && i < |t|
  {
    forall j :: j in marked && j in Reach(t, i) && j < |t| ==> Reach(t, j) <= marked
  }

  lemma MarksBelow(t: seq<Node>, i: nat, marked: set<nat>)
    requires WellFormed(t) && 2 <= i < |t| && MarksClosed(t, i, marked)
    ensures InnerOk(t, i)
    ensures i in marked ==> Reach(t, i) <= marked
    ensures MarksClosed(t, t[i].low, marked + {i})
    ensures MarksClosed(t, t[i].high, marked + {i} + Reach(t, t[i].low))
  {
    hide Reach;
    ReachSplit(t, i);
    ReachBelow(t, t[i].low);
  }

  /** bdd_markcount: every node that is met for the first time is marked and counted. */
  method MarkCount(t: seq<Node>, i: nat, marks: array<bool>, cou: nat) returns (count: nat)
    requires WellFormed(t) && i < |t| && marks.Length == |t|
    requires MarksClosed(t, i, Marked(marks[..]))
    modifies marks
    ensures Marked(marks[..]) == old(Marked(marks[..])) + Reach(t, i)
    ensures count == cou + |Reach(t, i) - old(Marked(marks[..]))|
    decreases t[0].level - t[i].level
  {
    if i < 2 {
      return cou;
    }
    hide Reach, WellFormed, MarksClosed, Marked;
    LevelBound(t, i);
    ReachSplit(t, i);
    ghost var m0 := Marked(marks[..]);
    MarksBelow(t, i, m0);
    MarkBit(marks[..], i);
    if marks[i] {
      assert Reach(t, i) - m0 == {};
      return cou;
    }
    marks[i] := true;
    LevelBound(t, t[i].low);
    LevelBound(t, t[i].high);
    count := MarkCount(t, t[i].low, marks, cou + 1);
    count := MarkCount(t, t[i].high, marks, count);
    CountParts(i, Reach(t, t[i].low), Reach(t, t[i].high), m0, Reach(t, i));
  }

  lemma MarkBit(bits: seq<bool>, i: nat)
    requires i < |bits|
    ensures i in Marked(bits) <==> bits[i]
    ensures Marked(bits[i := true]) == Marked(bits) + {i}
    ensures Marked(bits[i := false]) == Marked(bits) - {i}
  {
  }

  lemma CountParts(i: nat, a: set<nat>, b: set<nat>, marked: set<nat>, all: set<nat>)
    requires all == {i} + a + b && i !in a && i !in b && i !in marked
    ensures |all - marked| == 1 + |a - (marked + {i})| + |b - (marked + {i} + a)|
    ensures marked + {i} + a + b == marked + all
  {
    var a', b' := a - (marked + {i}), b - (marked + {i} + a);
    assert all - marked == ({i} + a') + b' && ({i} + a') !! b' && {i} !! a';
  }

  /** A cleared mark below i means that everything below it is clear. */
  ghost predicate ClearClosed(t: seq<Node>, i: nat, marked: set<nat>)
    requires WellFormed(t) && i < |t|
  {
    forall j :: j !in marked && j in Reach(t, i) && j < |t| ==> Reach(t, j) !! marked
  }

  lemma ClearBelow(t: seq<Node>, i: nat, marked: set<nat>)
    requires WellFormed(t) && 2 <= i < |t| && ClearClosed(t, i, marked)
    ensures InnerOk(t, i)
    ensures i !in marked ==> Reach(t, i) !! marked
    ensures ClearClosed(t, t[i].low, marked - {i})
    ensures ClearClosed(t, t[i].high, marked - {i} - Reach(t, t[i].low))
  {
    hide Reach;
    ReachSplit(t, i);
    ReachBelow(t, t[i].low);
  }

  /** bdd_unmark: clears the marks below i, stopping where they are cleared already. */
  method Unmark(t: seq<Node>, i: nat, marks: array<bool>)
    requires WellFormed(t) && i < |t| && marks.Length == |t|
    requires ClearClosed(t, i, Marked(marks[..]))
    modifies marks
    ensures Marked(marks[..]) == old(Marked(marks[..])) - Reach(t, i)
    decreases t[0].level - t[i].level
  {
    if i < 2 {
      return;
    }
    hide Reach, WellFormed, ClearClosed, Marked;
    LevelBound(t, i);
    ReachSplit(t, i);
    ClearBelow(t, i, Marked(marks[..]));
    MarkBit(marks[..], i);
    if !marks[i] {
      return;
    }
    marks[i] := false;
    LevelBound(t, t[i].low);
    LevelBound(t, t[i].high);
    Unmark(t, t[i].low, marks);
    Unmark(t, t[i].high, marks);
  }

  ghost function Keys(records: seq<Record>): set<int> {
    set j | 0 <= j < |records| :: records[j].key
  }

  /** Each record is a node of the table, no node comes twice, and children come first. */
  ghost predicate ChildrenFirst(t: seq<Node>, records: seq<Record>) {
    forall j :: 0 <= j < |records| ==> ChildrenBefore(t, records, j)
  }

  ghost predicate ChildrenBefore(t: seq<Node>, records: seq<Record>, j: nat)
    requires j < |records|
  {
    var key := records[j].key;
    && 2 <= key < |t|
    && records[j] == Record(key, t[key].level, t[key].low, t[key].high)
    && key !in Keys(records[..j])
    && (t[key].low >= 2 ==> t[key].low in Keys(records[..j]))
    && (t[key].high >= 2 ==> t[key].high in Keys(records[..j]))
  }

  lemma ChildrenFirstPrefix(t: seq<Node>, records: seq<Record>, n: nat)
    requires ChildrenFirst(t, records) && n <= |records|
    ensures ChildrenFirst(t, records[..n])
  {
    forall j | 0 <= j < n ensures ChildrenBefore(t, records[..n], j) {
      assert ChildrenBefore(t, records, j);
      assert records[..n][..j] == records[..j];
    }
  }

  lemma KeysPush(records: seq<Record>, r: Record)
    ensures Keys(records + [r]) == Keys(records) + {r.key}
  {
    forall key ensures key in Keys(records + [r]) <==> key in Keys(records) + {r.key} {
      if key in Keys(records) {
        var j :| 0 <= j < |records| && records[j].key == key;
        assert (records + [r])[j].key == key;
      }
      if key == r.key {
        assert (records + [r])[|records|].key == key;
      }
    }
  }

  /** A saved node is saved with everything below it. */
  lemma {:induction false} KeysClosed(t: seq<Node>, records: seq<Record>, key: nat)
    requires WellFormed(t) && ChildrenFirst(t, records) && key < |t| && key in Keys(records)
    ensures Reach(t, key) <= Keys(records)
    decreases |records|
  {
    var j :| 0 <= j < |records| && records[j].key == key;
    assert ChildrenBefore(t, records, j);
    var before := records[..j];
    ChildrenFirstPrefix(t, records, j);
    ReachSplit(t, key);
    if t[key].low >= 2 { KeysClosed(t, before, t[key].low); }
    if t[key].high >= 2 { KeysClosed(t, before, t[key].high); }
    assert Keys(before) <= Keys(records);
  }

  lemma PushNode(t: seq<Node>, records: seq<Record>, key: nat)
    requires ChildrenFirst(t, records) && 2 <= key < |t| && key !in Keys(records)
    requires t[key].low >= 2 ==> t[key].low in Keys(records)
    requires t[key].high >= 2 ==> t[key].high in Keys(records)
    ensures ChildrenFirst(t, records + [Record(key, t[key].level, t[key].low, t[key].high)])
  {
    var more := records + [Record(key, t[key].level, t[key].low, t[key].high)];
    forall j | 0 <= j < |more| ensures ChildrenBefore(t, more, j) {
      assert more[..j] == if j < |records| then records[..j] else records;
      if j < |records| { assert ChildrenBefore(t, records, j); }
    }
  }

  /** A mark below root means that the node is saved. */
  ghost predicate SavedClosed(t: seq<Node>, root: nat, marked: set<nat>, keys: set<int>)
    requires WellFormed(t) && root < |t|
  {
    forall j :: j in marked && j in Reach(t, root) ==> j in keys
  }

  lemma SavedBelow(t: seq<Node>, root: nat, marked: set<nat>, keys: set<int>)
    requires WellFormed(t) && 2 <= root < |t| && SavedClosed(t, root, marked, keys)
    ensures InnerOk(t, root)
    ensures root in marked ==> root in keys
    ensures SavedClosed(t, t[root].low, marked + {root}, keys)
    ensures SavedClosed(t, t[root].high, marked + {root} + Reach(t, t[root].low), keys + Reach(t, t[root].low))
  {
    hide Reach;
    ReachSplit(t, root);
  }

  /** bdd_save_rec: writes the records of the nodes below root that have none yet, root last. */
  method SaveRec(t: seq<Node>, root: nat, marks: array<bool>, ofile: seq<int>, ghost header: seq<int>,
                 ghost records: seq<Record>) returns (file: seq<int>, ghost saved: seq<Record>)
    requires WellFormed(t) && root < |t| && marks.Length == |t|
    requires ofile == header + Flat(records) && ChildrenFirst(t, records)
    requires Keys(records) <= Marked(marks[..])
    requires SavedClosed(t, root, Marked(marks[..]), Keys(records))
    modifies marks
    ensures Marked(marks[..]) == old(Marked(marks[..])) + Reach(t, root)
    ensures file == header + Flat(saved) && ChildrenFirst(t, saved)
    ensures Keys(saved) == Keys(records) + Reach(t, root)
    ensures root >= 2 && root !in Keys(records) ==> |saved| > 0 && saved[|saved| - 1].key == root
    decreases t[0].level - t[root].level
  {
    if root < 2 {
      return ofile, records;
    }
    hide Reach, WellFormed, ChildrenFirst, Keys, Marked, SavedClosed, Flat;
    ghost var m, keys := Marked(marks[..]), Keys(records);
    SavedBelow(t, root, m, keys);
    LevelBound(t, root);
    LevelBound(t, t[root].low);
    LevelBound(t, t[root].high);
    var node := t[root];
    MarkBit(marks[..], root);
    if marks[root] {
      AlreadySaved(t, root, records, m);
      return ofile, records;
    }
    marks[root] := true;
    file, saved := SaveRec(t, node.low, marks, ofile, header, records);
    file, saved := SaveRec(t, node.high, marks, file, header, saved);
    SaveNode(t, root, header, saved, keys, m);
    file := file + [root, node.level, node.low, node.high];
    saved := saved + [Record(root, node.level, node.low, node.high)];
  }

  lemma AlreadySaved(t: seq<Node>, root: nat, records: seq<Record>, marked: set<nat>)
    requires WellFormed(t) && 2 <= root < |t| && ChildrenFirst(t, records) && root in Keys(records)
    requires Keys(records) <= marked
    ensures marked + Reach(t, root) == marked
    ensures Keys(records) + Reach(t, root) == Keys(records)
  {
    KeysClosed(t, records, root);
  }

  /** The record of the node itself comes last. */
  lemma SaveNode(t: seq<Node>, root: nat, header: seq<int>, saved: seq<Record>, keys: set<int>, marked: set<nat>)
    requires WellFormed(t) && 2 <= root < |t| && InnerOk(t, root) && ChildrenFirst(t, saved)
    requires Keys(saved) == keys + Reach(t, t[root].low) + Reach(t, t[root].high) && root !in keys
    ensures var more := saved + [Record(root, t[root].level, t[root].low, t[root].high)];
      && ChildrenFirst(t, more) && Keys(more) == keys + Reach(t, root)
      && header + Flat(more) == header + Flat(saved) + [root, t[root].level, t[root].low, t[root].high]
    ensures marked + {root} + Reach(t, t[root].low) + Reach(t, t[root].high) == marked + Reach(t, root)
  {
    hide Reach, ChildrenFirst, Keys, Flat;
    ReachSplit(t, root);
    SavedTop(t, t[root].low, Keys(saved));
    SavedTop(t, t[root].high, Keys(saved));
    PushNode(t, saved, root);
    var record := Record(root, t[root].level, t[root].low, t[root].high);
    KeysPush(saved, record);
    FlatPush(saved, record);
  }

  lemma FlatPush(records: seq<Record>, r: Record)
    ensures Flat(records + [r]) == Flat(records) + [r.key, r.var_, r.low, r.high]
  {
    assert (records + [r])[..|records|] == records;
  }

  lemma SavedTop(t: seq<Node>, n: nat, keys: set<int>)
    requires WellFormed(t) && n < |t|
    ensures n >= 2 && Reach(t, n) <= keys ==> n in keys
  {
    if n >= 2 { ReachSplit(t, n); }
  }
}
