/** The file format of saved diagrams, and what a file means by itself. */
module Records {
  import opened Table

  /** One line of the file. */
  datatype Record = Record(key: int, var_: int, low: int, high: int)

  function Flat(records: seq<Record>): seq<int> {
    if records == [] then []
    else
      var last := records[|records| - 1];
      Flat(records[..|records| - 1]) + [last.key, last.var_, last.low, last.high]
  }

  /** The record that starts at each fourth number from pos on. */
  function Parsed(file: seq<int>, pos: nat, n: nat): (records: seq<Record>)
    requires pos + 4 * n <= |file|
    ensures |records| == n
  {
    seq(n, j requires 0 <= j < n =>
      Record(file[pos + 4 * j], file[pos + 4 * j + 1], file[pos + 4 * j + 2], file[pos + 4 * j + 3]))
  }

  lemma {:induction false} FlatAt(records: seq<Record>, j: nat)
    requires j < |records|
    ensures |Flat(records)| == 4 * |records|
    ensures records[j] ==
      Record(Flat(records)[4 * j], Flat(records)[4 * j + 1], Flat(records)[4 * j + 2], Flat(records)[4 * j + 3])
  {
    var last := |records| - 1;
    FlatSize(records);
    FlatSize(records[..last]);
    if j < last { FlatAt(records[..last], j); }
  }

  lemma {:induction false} FlatSize(records: seq<Record>)
    ensures |Flat(records)| == 4 * |records|
  {
    if records != [] { FlatSize(records[..|records| - 1]); }
  }

  /** Reading back what was written. */
  lemma FlatParsed(before: seq<int>, records: seq<Record>)
    ensures |before| + 4 * |records| <= |before + Flat(records)|
    ensures Parsed(before + Flat(records), |before|, |records|) == records
  {
    FlatSize(records);
    forall j | 0 <= j < |records| ensures Parsed(before + Flat(records), |before|, |records|)[j] == records[j] {
      FlatAt(records, j);
    }
  }

  /** The last record with the given key, or -1. */
  function LastWith(records: seq<Record>, key: int): (j: int)
    ensures -1 <= j < |records|
    ensures j >= 0 ==> records[j].key == key
    ensures forall i :: j < i < |records| ==> records[i].key != key
  {
    if records == [] then -1
    else if records[|records| - 1].key == key then |records| - 1
    else LastWith(records[..|records| - 1], key)
  }

  /** Can a key be mentioned after these records? */
  predicate Known(records: seq<Record>, key: int) {
    0 <= key && (key >= 2 ==> LastWith(records, key) >= 0)
  }

  /** The value of a key: the constants mean themselves, and a record is read in the light of the records
      before it. */
  ghost predicate Value(records: seq<Record>, key: int, env: Env)
    decreases |records|, 1
  {
    if key < 2 then key == 1
    else if LastWith(records, key) < 0 then false
    else RecordValue(records, LastWith(records, key), env)
  }

  ghost predicate RecordValue(records: seq<Record>, j: nat, env: Env)
    requires j < |records|
    decreases j, 2
  {
    if records[j].var_ in env then Value(records[..j], records[j].high, env)
    else Value(records[..j], records[j].low, env)
  }

  /** Every record mentions only what stands before it, and variables below varnum. */
  predicate Loadable(records: seq<Record>, varnum: nat) {
    forall j :: 0 <= j < |records| ==> LoadableAt(records, varnum, j)
  }

  predicate LoadableAt(records: seq<Record>, varnum: nat, j: nat)
    requires j < |records|
  {
    && 0 <= records[j].var_ < varnum
    && Known(records[..j], records[j].low)
    && Known(records[..j], records[j].high)
  }

  /** More records after it do not change a record. */
  lemma RecordValuePrefix(records: seq<Record>, n: nat, j: nat, env: Env)
    requires j < n <= |records|
    ensures RecordValue(records[..n], j, env) == RecordValue(records, j, env)
  {
    assert records[..n][..j] == records[..j];
  }
}
