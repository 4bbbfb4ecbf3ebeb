/**
 The Berkeley DB calls that QxtBdb relies on, as a store of records in key order with cursors.  This is
 the contract the library is taken to keep: a call that fails leaves the cursor where it was, and one
 whose buffers are too small reports the sizes that are needed.
 */
module BdbStore {
  import opened ByteArray
  import opened Wrappers

  datatype Record = Record(key: Bytes, data: Bytes)

  /** The order of a B-tree database: byte by byte, a prefix first. */
  predicate Less(a: Bytes, b: Bytes)
    decreases |a|
  {
    b != "" && (a == "" || a[0] < b[0] || (a[0] == b[0] && Less(a[1..], b[1..])))
  }

  /** The keys agree up to some place, where the first ends or has the smaller byte. */
  ghost predicate BelowAt(a: Bytes, b: Bytes, i: nat) {
    i <= |a| && i < |b| && a[..i] == b[..i] && (i == |a| || a[i] < b[i])
  }

  lemma {:induction false} LessAt(a: Bytes, b: Bytes) returns (i: nat)
    requires Less(a, b)
    ensures BelowAt(a, b, i)
    decreases |a|
  {
    if a == "" || a[0] < b[0] {
      i := 0;
    } else {
      var k := LessAt(a[1..], b[1..]);
      i := k + 1;
      assert a[..i] == [a[0]] + a[1..][..k] && b[..i] == [b[0]] + b[1..][..k];
    }
  }

  lemma {:induction false} BelowIsLess(a: Bytes, b: Bytes, i: nat)
    requires BelowAt(a, b, i)
    ensures Less(a, b)
    decreases |a|
  {
    if i > 0 {
      assert a[..i][0] == b[..i][0];
      assert a[1..][..i - 1] == a[..i][1..] && b[1..][..i - 1] == b[..i][1..];
      BelowIsLess(a[1..], b[1..], i - 1);
    }
  }

  /** The order of the records is the one of a dictionary over the bytes of their keys. */
  lemma LessMeans(a: Bytes, b: Bytes)
    ensures Less(a, b) <==> exists i: nat :: BelowAt(a, b, i)
  {
    if Less(a, b) {
      var i := LessAt(a, b);
    }
    if i: nat :| BelowAt(a, b, i) {
      BelowIsLess(a, b, i);
    }
  }

  lemma {:induction false} LessIrreflexive(a: Bytes)
    ensures !Less(a, a)
  {
    if a != "" {
      LessIrreflexive(a[1..]);
    }
  }

  lemma {:induction false} LessTransitive(a: Bytes, b: Bytes, c: Bytes)
    requires Less(a, b) && Less(b, c)
    ensures Less(a, c)
    decreases |a|
  {
    if a != "" && a[0] == b[0] && b[0] == c[0] {
      LessTransitive(a[1..], b[1..], c[1..]);
    }
  }

  lemma {:induction false} LessTotal(a: Bytes, b: Bytes)
    ensures Less(a, b) || a == b || Less(b, a)
    decreases |a|
  {
    if a != "" && b != "" && a[0] == b[0] {
      LessTotal(a[1..], b[1..]);
      assert a == [a[0]] + a[1..];
      assert b == [b[0]] + b[1..];
    }
  }

  // ----- records in key order

  predicate Sorted(rs: seq<Record>) {
    forall i, j :: 0 <= i < j < |rs| ==> Less(rs[i].key, rs[j].key)
  }

  /** The number of records whose key is below `key`: where `key` is, or belongs. */
  function Rank(rs: seq<Record>, key: Bytes): (n: nat)
    ensures n <= |rs|
    ensures n < |rs| ==> !Less(rs[n].key, key)
    ensures forall i :: 0 <= i < n ==> Less(rs[i].key, key)
  {
    if rs == [] || !Less(rs[0].key, key) then 0 else 1 + Rank(rs[1..], key)
  }

  predicate At(rs: seq<Record>, key: Bytes) {
    Rank(rs, key) < |rs| && rs[Rank(rs, key)].key == key
  }

  /** A rank is found from both sides. */
  lemma RankIs(rs: seq<Record>, key: Bytes, n: nat)
    requires Sorted(rs) && n <= |rs|
    requires n > 0 ==> Less(rs[n - 1].key, key)
    requires n < |rs| ==> !Less(rs[n].key, key)
    ensures Rank(rs, key) == n
  {
    var r := Rank(rs, key);
    hide Rank;
    if r < n {
      if r < n - 1 {
        LessTransitive(rs[r].key, rs[n - 1].key, key);
      }
    }
  }

  lemma RankOfRecord(rs: seq<Record>, i: nat)
    requires Sorted(rs) && i < |rs|
    ensures Rank(rs, rs[i].key) == i && At(rs, rs[i].key)
  {
    LessIrreflexive(rs[i].key);
    RankIs(rs, rs[i].key, i);
  }

  function Put(rs: seq<Record>, key: Bytes, data: Bytes): seq<Record> {
    var n := Rank(rs, key);
    rs[..n] + [Record(key, data)] + rs[if At(rs, key) then n + 1 else n..]
  }

  function Del(rs: seq<Record>, key: Bytes): seq<Record> {
    var n := Rank(rs, key);
    if At(rs, key) then rs[..n] + rs[n + 1..] else rs
  }

  function Lookup(rs: seq<Record>, key: Bytes): Option<Record> {
    if At(rs, key) then Some(rs[Rank(rs, key)]) else None
  }

  lemma AboveRank(rs: seq<Record>, key: Bytes, i: nat)
    requires Sorted(rs) && Rank(rs, key) <= i < |rs|
    ensures (At(rs, key) && i == Rank(rs, key)) || Less(key, rs[i].key)
  {
    var n := Rank(rs, key);
    LessTotal(rs[n].key, key);
    if n < i && rs[n].key != key {
      LessTransitive(key, rs[n].key, rs[i].key);
    }
  }

  lemma PutAt(rs: seq<Record>, key: Bytes, data: Bytes, i: nat)
    requires Sorted(rs) && i < |Put(rs, key, data)|
    ensures var n, skip := Rank(rs, key), if At(rs, key) then 0 else 1;
      Put(rs, key, data)[i] == if i < n then rs[i] else if i == n then Record(key, data) else rs[i - skip]
  {
    hide Rank;
  }

  lemma PutOrder(rs: seq<Record>, key: Bytes, data: Bytes, i: nat, j: nat)
    requires Sorted(rs) && i < j < |Put(rs, key, data)|
    ensures Less(Put(rs, key, data)[i].key, Put(rs, key, data)[j].key)
  {
    var n, skip := Rank(rs, key), if At(rs, key) then 0 else 1;
    PutAt(rs, key, data, i);
    PutAt(rs, key, data, j);
    if j > n {
      AboveRank(rs, key, j - skip);
      if i < n {
        LessTransitive(rs[i].key, key, rs[j - skip].key);
      }
    }
    hide Put;
  }

  lemma PutSorted(rs: seq<Record>, key: Bytes, data: Bytes)
    requires Sorted(rs)
    ensures Sorted(Put(rs, key, data))
    ensures Rank(Put(rs, key, data), key) == Rank(rs, key)
  {
    var n, out := Rank(rs, key), Put(rs, key, data);
    forall i, j | 0 <= i < j < |out|
      ensures Less(out[i].key, out[j].key)
    {
      PutOrder(rs, key, data, i, j);
    }
    PutAt(rs, key, data, n);
    if n > 0 {
      PutAt(rs, key, data, n - 1);
    }
    LessIrreflexive(key);
    RankIs(out, key, n);
  }

  lemma DelSorted(rs: seq<Record>, key: Bytes)
    requires Sorted(rs)
    ensures Sorted(Del(rs, key)) && !At(Del(rs, key), key)
    ensures Rank(Del(rs, key), key) == Rank(rs, key)
  {
    var n, out := Rank(rs, key), Del(rs, key);
    LessIrreflexive(key);
    if At(rs, key) {
      DelOrder(rs, key);
      hide Rank, Del;
      if n > 0 {
        DelAt(rs, key, n - 1);
      }
      if n < |out| {
        DelAt(rs, key, n);
        AboveRank(rs, key, n + 1);
        LessNotBack(key, rs[n + 1].key);
      }
    }
    RankIs(out, key, n);
  }

  lemma DelAt(rs: seq<Record>, key: Bytes, i: int)
    requires Sorted(rs) && At(rs, key)
    ensures |Del(rs, key)| == |rs| - 1
    ensures 0 <= i < |rs| - 1 ==> Del(rs, key)[i] == rs[if i < Rank(rs, key) then i else i + 1]
  {
    hide Rank;
  }

  lemma DelOrder(rs: seq<Record>, key: Bytes)
    requires Sorted(rs) && At(rs, key)
    ensures Sorted(Del(rs, key))
  {
    hide Rank;
    var out := Del(rs, key);
    forall i, j | 0 <= i < j < |out|
      ensures Less(out[i].key, out[j].key)
    {
      DelAt(rs, key, i);
      DelAt(rs, key, j);
    }
  }

  lemma LessNotBack(a: Bytes, b: Bytes)
    requires Less(a, b)
    ensures a != b && !Less(b, a)
  {
    LessIrreflexive(a);
    if Less(b, a) {
      LessTransitive(a, b, a);
    }
  }

  // ----- cursors

  datatype Position = Unset | On(key: Bytes)

  datatype Flag = First | Last | Next | Prev | Current | Set(key: Bytes)

  /** The record before and after a key that may itself be gone. */
  function NextOf(rs: seq<Record>, key: Bytes): Option<Record> {
    var n := if At(rs, key) then Rank(rs, key) + 1 else Rank(rs, key);
    if n < |rs| then Some(rs[n]) else None
  }

  function PrevOf(rs: seq<Record>, key: Bytes): Option<Record> {
    var n := Rank(rs, key);
    if n > 0 then Some(rs[n - 1]) else None
  }

  function FirstOf(rs: seq<Record>): Option<Record> {
    if rs == [] then None else Some(rs[0])
  }

  function LastOf(rs: seq<Record>): Option<Record> {
    if rs == [] then None else Some(rs[|rs| - 1])
  }

  /** The record a cursor call is about. */
  function Target(rs: seq<Record>, at: Position, flag: Flag): Option<Record> {
    match flag
    case First => FirstOf(rs)
    case Last => LastOf(rs)
    case Next => if at.On? then NextOf(rs, at.key) else FirstOf(rs)
    case Prev => if at.On? then PrevOf(rs, at.key) else LastOf(rs)
    case Current => if at.On? then Lookup(rs, at.key) else None
    case Set(key) => Lookup(rs, key)
  }

  datatype Code = Done | BufferSmall | NotFound

  /** A data buffer of the caller: DB_DBT_USERMEM with room for `ulen` bytes. */
  class Dbt {
    var data: Bytes
    var size: nat
    var ulen: nat

    constructor (data: Bytes, ulen: nat)
      ensures this.data == data && this.size == |data| && this.ulen == ulen
    {
      this.data, this.size, this.ulen := data, |data|, ulen;
    }
  }

  class Cursor {
    var at: Position

    constructor (at: Position)
      ensures this.at == at
    {
      this.at := at;
    }
  }

  /** A search for a given key does not return the key. */
  predicate ReturnsKey(flag: Flag) {
    !flag.Set?
  }

  predicate Fits(r: Record, flag: Flag, keyRoom: nat, dataRoom: nat) {
    (ReturnsKey(flag) ==> |r.key| <= keyRoom) && |r.data| <= dataRoom
  }

  class Store {
    var records: seq<Record>

    constructor ()
      ensures records == []
    {
      records := [];
    }

    /** c_get; without a cursor, get. */
    method CGet(cursor: Cursor?, key: Dbt, value: Dbt, flag: Flag) returns (ret: Code)
      requires key != value && (cursor == null ==> flag.Set?)
      modifies cursor, key, value
      ensures key.ulen == old(key.ulen) && value.ulen == old(value.ulen)
      ensures var r := Target(records, if cursor == null then Unset else old(cursor.at), flag);
        match ret
        case NotFound => r.None? && unchanged(key) && unchanged(value) && (cursor != null ==> unchanged(cursor))
        case BufferSmall =>
          && r.Some? && !Fits(r.value, flag, key.ulen, value.ulen)
          && value.size == |r.value.data| && (if ReturnsKey(flag) then key.size == |r.value.key| else unchanged(key))
          && (cursor != null ==> unchanged(cursor))
        case Done =>
          && r.Some? && Fits(r.value, flag, key.ulen, value.ulen)
          && value.data == r.value.data && value.size == |value.data|
          && (if ReturnsKey(flag) then key.data == r.value.key && key.size == |key.data| else unchanged(key))
          && (cursor != null ==> cursor.at == On(r.value.key))
    {
      var r := Target(records, if cursor == null then Unset else cursor.at, flag);
      if r.None? { return NotFound; }
      if !Fits(r.value, flag, key.ulen, value.ulen) {
        value.size := |r.value.data|;
        if ReturnsKey(flag) { key.size := |r.value.key|; }
        return BufferSmall;
      }
      value.data, value.size := r.value.data, |r.value.data|;
      if ReturnsKey(flag) { key.data, key.size := r.value.key, |r.value.key|; }
      if cursor != null { cursor.at := On(r.value.key); }
      return Done;
    }

    /** put with overwriting. */
    method DbPut(key: Bytes, data: Bytes)
      modifies this
      ensures records == Put(old(records), key, data)
    {
      records := Put(records, key, data);
    }

    /** exists. */
    method Exists(key: Bytes) returns (found: bool)
      ensures found == At(records, key)
    {
      found := At(records, key);
    }

    /** del by key. */
    method DbDel(key: Bytes) returns (found: bool)
      modifies this
      ensures found == At(old(records), key) && records == Del(old(records), key)
    {
      found := At(records, key);
      records := Del(records, key);
    }

    /** del through a cursor, which stays where the record was. */
    method CDel(cursor: Cursor)
      requires cursor.at.On?
      modifies this
      ensures records == Del(old(records), cursor.at.key)
    {
      records := Del(records, cursor.at.key);
    }

    method Truncate()
      modifies this
      ensures records == []
    {
      records := [];
    }
  }
}
