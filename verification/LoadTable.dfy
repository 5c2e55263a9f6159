/** The hash table of the loader: chains of records and the list of free records threaded through one
    array. */
module LoadTable {

  /** A record of the array: first heads the chain of the bucket with the record's own index; the other
      fields belong to the entry that is stored here. */
  datatype LoadHash = LoadHash(key: int, data: int, first: int, next: int)

  function Bucket(key: nat, size: nat): (b: nat)
    requires size > 0
    ensures b < size
  {
    key % size
  }

  /** The last of the keys in a bucket, or -1. */
  function Latest(keys: seq<nat>, size: nat, bucket: nat): (j: int)
    requires size > 0
    ensures -1 <= j < |keys|
    ensures j >= 0 ==> Bucket(keys[j], size) == bucket
    ensures forall i :: j < i < |keys| ==> Bucket(keys[i], size) != bucket
  {
    if keys == [] then -1
    else if Bucket(keys[|keys| - 1], size) == bucket then |keys| - 1
    else Latest(keys[..|keys| - 1], size, bucket)
  }

  /** The last position of a key, or -1. */
  function Position(keys: seq<nat>, key: int): (j: int)
    ensures -1 <= j < |keys|
    ensures j >= 0 ==> keys[j] == key
    ensures forall i :: j < i < |keys| ==> keys[i] != key
  {
    if keys == [] then -1
    else if keys[|keys| - 1] == key then |keys| - 1
    else Position(keys[..|keys| - 1], key)
  }

  lemma LatestPush(keys: seq<nat>, size: nat, key: nat)
    requires size > 0
    ensures forall b :: 0 <= b < size ==>
      Latest(keys + [key], size, b) == if b == Bucket(key, size) then |keys| else Latest(keys, size, b)
  {
    assert (keys + [key])[..|keys|] == keys;
  }

  /** One step down a chain passes no entry with the key. */
  lemma ChainStep(keys: seq<nat>, size: nat, key: nat, last: nat)
    requires size > 0 && last <= |keys|
    ensures var j := Latest(keys[..last], size, Bucket(key, size));
      && -1 <= j < last
      && (j >= 0 ==> Bucket(keys[j], size) == Bucket(key, size))
      && forall i :: j < i < last ==> keys[i] != key
  {
    var j := Latest(keys[..last], size, Bucket(key, size));
    forall i | j < i < last ensures keys[i] != key {
      assert keys[..last][i] == keys[i];
    }
  }

  lemma PositionIs(keys: seq<nat>, key: nat, j: int)
    requires -1 <= j < |keys| && (j >= 0 ==> keys[j] == key)
    requires forall i :: j < i < |keys| ==> keys[i] != key
    ensures Position(keys, key) == j
  {
  }

  /** The array holds the given entries, in the order in which they were added, and the free records
      after them. */
  ghost predicate TableOk(table: seq<LoadHash>, freepos: int, keys: seq<nat>, values: seq<int>) {
    var size, used := |table|, |keys|;
    && size > 0 && used <= size && |values| == used
    && freepos == (if used < size then used else -1)
    && (forall i :: used <= i < size ==> table[i].next == if i + 1 < size then i + 1 else -1)
    && (forall i :: 0 <= i < used ==> table[i].key == keys[i] && table[i].data == values[i])
    && HeadsOk(table, keys)
    && ChainsOk(table, keys)
  }

  /** Each bucket starts at its last entry, and each entry points to the one before it in its bucket. */
  ghost predicate HeadsOk(table: seq<LoadHash>, keys: seq<nat>) {
    forall i :: 0 <= i < |table| ==> table[i].first == Latest(keys, |table|, i)
  }

  ghost predicate ChainsOk(table: seq<LoadHash>, keys: seq<nat>)
    requires 0 < |table| && |keys| <= |table|
  {
    forall i :: 0 <= i < |keys| ==> table[i].next == Latest(keys[..i], |table|, Bucket(keys[i], |table|))
  }

  /** The table with one more entry at the first free record. */
  ghost predicate IsLinked(table: seq<LoadHash>, freepos: nat, key: nat, data: int, table': seq<LoadHash>)
    requires freepos < |table| && |table'| == |table|
  {
    var hash := Bucket(key, |table|);
    forall i :: 0 <= i < |table| ==>
      && table'[i].first == (if i == hash then freepos else table[i].first)
      && table'[i].next == (if i == freepos then table[hash].first else table[i].next)
      && table'[i].key == (if i == freepos then key else table[i].key)
      && table'[i].data == (if i == freepos then data else table[i].data)
  }

  lemma HeadsLinked(table: seq<LoadHash>, keys: seq<nat>, key: nat, data: int, table': seq<LoadHash>)
    requires HeadsOk(table, keys) && |keys| < |table| == |table'| && IsLinked(table, |keys|, key, data, table')
    ensures HeadsOk(table', keys + [key])
  {
    hide Bucket, Latest;
    LatestPush(keys, |table|, key);
  }

  lemma ChainsLinked(table: seq<LoadHash>, keys: seq<nat>, key: nat, data: int, table': seq<LoadHash>)
    requires HeadsOk(table, keys) && |keys| < |table| == |table'| && ChainsOk(table, keys)
    requires IsLinked(table, |keys|, key, data, table')
    ensures ChainsOk(table', keys + [key])
  {
    hide Bucket, Latest;
    var more := keys + [key];
    forall i | 0 <= i < |more| ensures table'[i].next == Latest(more[..i], |table|, Bucket(more[i], |table|)) {
      assert more[..i] == if i < |keys| then keys[..i] else keys;
    }
  }

  /** The first free record becomes the head of the chain of its key. */
  lemma Linked(table: seq<LoadHash>, freepos: int, keys: seq<nat>, values: seq<int>, key: nat, data: int, table': seq<LoadHash>)
    requires TableOk(table, freepos, keys, values) && |keys| < |table| == |table'|
    requires IsLinked(table, |keys|, key, data, table')
    ensures TableOk(table', table[|keys|].next, keys + [key], values + [data])
  {
    hide Bucket, HeadsOk, ChainsOk;
    HeadsLinked(table, keys, key, data, table');
    ChainsLinked(table, keys, key, data, table');
  }

  class LoadTable {
    var table: array<LoadHash>
    var freepos: int
    ghost var keys: seq<nat>
    ghost var values: seq<int>

    ghost predicate Valid()
      reads this, table
    {
      TableOk(table[..], freepos, keys, values)
    }

    /** All records are free. */
    constructor (nodenum: nat)
      requires nodenum > 0
      ensures Valid() && fresh(table) && table.Length == nodenum && keys == [] && values == []
    {
      table := new LoadHash[nodenum](_ => LoadHash(0, 0, 0, 0));
      freepos := 0;
      keys, values := [], [];
      new;
      for n := 0 to nodenum
        invariant freepos == 0 && keys == [] && values == [] && fresh(table) && table.Length == nodenum
        invariant forall i :: 0 <= i < n ==> table[i].first == -1 && table[i].next == i + 1
      {
        table[n] := table[n].(first := -1, next := n + 1);
      }
      table[nodenum - 1] := table[nodenum - 1].(next := -1);
    }

    /** loadhash_add: takes the first free record and puts it at the head of its chain. */
    method Add(key: nat, data: int)
      requires Valid() && |keys| < table.Length
      modifies this`freepos, this`keys, this`values, table
      ensures Valid() && table == old(table)
      ensures keys == old(keys) + [key] && values == old(values) + [data]
    {
      hide Bucket, Latest;
      var hash := Bucket(key, table.Length);
      var pos := freepos;
      freepos := table[pos].next;
      table[pos] := table[pos].(next := table[hash].first);
      table[hash] := table[hash].(first := pos);
      table[pos] := table[pos].(key := key, data := data);
      Linked(old(table[..]), pos, keys, values, key, data, table[..]);
      keys, values := keys + [key], values + [data];
    }

    /** loadhash_get: the data of the last entry with the key, or -1. */
    method Get(key: nat) returns (data: int)
      requires Valid()
      ensures data == if Position(keys, key) < 0 then -1 else values[Position(keys, key)]
    {
      hide Bucket, Latest, Position;
      var hash := table[Bucket(key, table.Length)].first;
      assert keys[..|keys|] == keys;
      ChainStep(keys, table.Length, key, |keys|);
      while hash != -1 && table[hash].key != key
        invariant -1 <= hash < |keys|
        invariant hash >= 0 ==> Bucket(keys[hash], table.Length) == Bucket(key, table.Length)
        invariant forall i :: hash < i < |keys| ==> keys[i] != key
        decreases hash
      {
        ChainStep(keys, table.Length, key, hash);
        hash := table[hash].next;
      }
      PositionIs(keys, key, hash);
      if hash == -1 {
        return -1;
      }
      return table[hash].data;
    }
  }
}
