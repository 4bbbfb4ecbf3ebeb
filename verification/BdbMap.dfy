/**
 The hash as a finite map: every run of its operations answers as a map would
 (src/bdb/qxtbdbhash.h, src/bdb/qxtbdbhash.cpp).
 */
module BdbMap {
  import opened ByteArray
  import opened Wrappers
  import opened BdbStore
  import opened BdbOrder
  import opened BdbGet
  import opened BdbHash

  datatype Types<!K(!new), !V(!new)> = Types(key: MetaType<K>, val: MetaType<V>) {
    ghost predicate Faithful() {
      key.Faithful() && val.Faithful()
    }

    /** A value that is saved as nothing at all is the default-constructed one. */
    ghost predicate NothingIsBlank() {
      forall v :: val.save(v) == "" ==> v == val.blank
    }
  }

  /** The records are those of the map: one for each entry, under its saved key. */
  ghost predicate Represents<K(!new), V(!new)>(rs: seq<Record>, m: map<K, V>, t: Types<K, V>) {
    && Sorted(rs)
    && (forall k: K :: Lookup(rs, t.key.save(k))
                    == if k in m then Some(Record(t.key.save(k), t.val.save(m[k]))) else None)
    && (forall i :: 0 <= i < |rs| ==> exists k :: k in m && t.key.save(k) == rs[i].key)
  }

  datatype Op<K, V> = Insert(k: K, v: V) | Remove(k: K) | Clear | Contains(k: K) | Value(k: K) | Find(k: K)

  /** A truth value, a value, or the place of an iterator. */
  datatype Answer<V> = Truth(b: bool) | Got(v: V) | Stands(place: Option<Bytes>)

  /** One operation on the records of an open hash (see Perform). */
  function OnRecords<K(!new), V(!new)>(rs: seq<Record>, op: Op<K, V>, t: Types<K, V>): (seq<Record>, Answer<V>) {
    match op
    case Insert(k, v) => (Put(rs, t.key.save(k), t.val.save(v)), Truth(true))
    case Remove(k) => (Del(rs, t.key.save(k)), Truth(At(rs, t.key.save(k))))
    case Clear => ([], Truth(true))
    case Contains(k) => (rs, Truth(At(rs, t.key.save(k))))
    case Value(k) => (rs, Got(Stored(rs, t.key.save(k), t.val)))
    case Find(k) => (rs, Stands(if At(rs, t.key.save(k)) then Some(t.key.save(k)) else None))
  }

  function OnMap<K(!new), V(!new)>(m: map<K, V>, op: Op<K, V>, t: Types<K, V>): (map<K, V>, Answer<V>) {
    match op
    case Insert(k, v) => (m[k := v], Truth(true))
    case Remove(k) => (m - {k}, Truth(k in m))
    case Clear => (map[], Truth(true))
    case Contains(k) => (m, Truth(k in m))
    case Value(k) => (m, Got(if k in m then m[k] else t.val.blank))
    case Find(k) => (m, Stands(if k in m then Some(t.key.save(k)) else None))
  }

  function RunRecords<K(!new), V(!new)>(rs: seq<Record>, ops: seq<Op<K, V>>, t: Types<K, V>)
      : (seq<Record>, seq<Answer<V>>)
    decreases |ops|
  {
    if ops == [] then (rs, [])
    else
      var (next, answer) := OnRecords(rs, ops[0], t);
      var (end, answers) := RunRecords(next, ops[1..], t);
      (end, [answer] + answers)
  }

  function RunMap<K(!new), V(!new)>(m: map<K, V>, ops: seq<Op<K, V>>, t: Types<K, V>): (map<K, V>, seq<Answer<V>>)
    decreases |ops|
  {
    if ops == [] then (m, [])
    else
      var (next, answer) := OnMap(m, ops[0], t);
      var (end, answers) := RunMap(next, ops[1..], t);
      (end, [answer] + answers)
  }

  // ----- the hash does what the functions say

  method Perform<K(!new), V(!new)>(hash: BdbHash<K, V>, op: Op<K, V>) returns (answer: Answer<V>)
    requires hash.Valid() && hash.bdb.isOpen
    modifies hash.bdb.db
    ensures hash.Valid()
    ensures (hash.Records(), answer) == OnRecords(old(hash.Records()), op, Types(hash.keyType, hash.valType))
  {
    match op
    case Insert(k, v) =>
      var ok := hash.Insert(k, v);
      answer := Truth(ok);
    case Remove(k) =>
      AtMeans(hash.Records(), hash.keyType.save(k));
      var ok := hash.Remove(k);
      answer := Truth(ok);
    case Clear =>
      hash.Clear();
      answer := Truth(true);
    case Contains(k) =>
      AtMeans(hash.Records(), hash.keyType.save(k));
      var found := hash.Contains(k);
      answer := Truth(found);
    case Value(k) =>
      var v := hash.Value(k);
      answer := Got(v);
    case Find(k) =>
      AtMeans(hash.Records(), hash.keyType.save(k));
      var it := hash.Find(k);
      answer := Stands(if it.dbc == null then None else Some(it.dbc.at.key));
  }

  lemma RunRecordsCons<K(!new), V(!new)>(rs: seq<Record>, op: Op<K, V>, ops: seq<Op<K, V>>, t: Types<K, V>)
    ensures var (next, answer) := OnRecords(rs, op, t);
      RunRecords(rs, [op] + ops, t) == (RunRecords(next, ops, t).0, [answer] + RunRecords(next, ops, t).1)
  {
    assert ([op] + ops)[1..] == ops;
    hide OnRecords;
  }

  method PerformAll<K(!new), V(!new)>(hash: BdbHash<K, V>, ops: seq<Op<K, V>>) returns (answers: seq<Answer<V>>)
    requires hash.Valid() && hash.bdb.isOpen
    modifies hash.bdb.db
    ensures hash.Valid()
    ensures (hash.Records(), answers) == RunRecords(old(hash.Records()), ops, Types(hash.keyType, hash.valType))
  {
    hide OnRecords, RunRecords, Sorted;
    ghost var t := Types(hash.keyType, hash.valType);
    ghost var whole := RunRecords(hash.Records(), ops, t);
    answers := [];
    var i := 0;
    assert ops[i..] == ops && answers + whole.1 == whole.1;
    while i < |ops|
      invariant 0 <= i <= |ops| && hash.Valid()
      invariant var (end, more) := RunRecords(hash.Records(), ops[i..], t); whole == (end, answers + more)
    {
      assert ops[i..] == [ops[i]] + ops[i + 1..];
      RunRecordsCons(hash.Records(), ops[i], ops[i + 1..], t);
      ghost var more := RunRecords(OnRecords(hash.Records(), ops[i], t).0, ops[i + 1..], t).1;
      var answer := Perform(hash, ops[i]);
      assert answers + ([answer] + more) == answers + [answer] + more;
      answers := answers + [answer];
      i := i + 1;
    }
    RunNoRecords(hash.Records(), t);
    assert ops[i..] == [] && answers + [] == answers;
  }

  lemma RunNoRecords<K(!new), V(!new)>(rs: seq<Record>, t: Types<K, V>)
    ensures RunRecords(rs, [], t) == (rs, [])
  {
  }

  // ----- and that is what a map does

  lemma SavedKeysDiffer<K(!new), V(!new)>(t: Types<K, V>, a: K, b: K)
    requires t.Faithful() && t.key.save(a) == t.key.save(b)
    ensures a == b
  {
    assert t.key.load(t.key.save(a)) == a;
    assert t.key.load(t.key.save(b)) == b;
  }

  lemma InsertLooksUp<K(!new), V(!new)>(rs: seq<Record>, m: map<K, V>, k: K, v: V, t: Types<K, V>, o: K)
    requires t.Faithful() && Represents(rs, m, t)
    ensures Lookup(Put(rs, t.key.save(k), t.val.save(v)), t.key.save(o))
         == if o in m[k := v] then Some(Record(t.key.save(o), t.val.save(m[k := v][o]))) else None
  {
    hide Put, Lookup, Sorted;
    PutLookup(rs, t.key.save(k), t.val.save(v), t.key.save(o));
    if t.key.save(o) == t.key.save(k) {
      SavedKeysDiffer(t, o, k);
    }
  }

  lemma InsertOwned<K(!new), V(!new)>(rs: seq<Record>, m: map<K, V>, k: K, v: V, t: Types<K, V>, i: nat) returns (o: K)
    requires Represents(rs, m, t) && i < |Put(rs, t.key.save(k), t.val.save(v))|
    ensures o in m[k := v] && t.key.save(o) == Put(rs, t.key.save(k), t.val.save(v))[i].key
  {
    hide Put, Rank, Lookup, Sorted;
    var j := PutOrigin(rs, t.key.save(k), t.val.save(v), i);
    if j == -1 {
      o := k;
    } else {
      o :| o in m && t.key.save(o) == rs[j].key;
    }
  }

  lemma InsertRepresents<K(!new), V(!new)>(rs: seq<Record>, m: map<K, V>, k: K, v: V, t: Types<K, V>)
    requires t.Faithful() && Represents(rs, m, t)
    ensures Represents(Put(rs, t.key.save(k), t.val.save(v)), m[k := v], t)
  {
    var out := Put(rs, t.key.save(k), t.val.save(v));
    PutSorted(rs, t.key.save(k), t.val.save(v));
    forall o: K
      ensures Lookup(out, t.key.save(o))
           == if o in m[k := v] then Some(Record(t.key.save(o), t.val.save(m[k := v][o]))) else None
    {
      InsertLooksUp(rs, m, k, v, t, o);
    }
    forall i | 0 <= i < |out|
      ensures exists o :: o in m[k := v] && t.key.save(o) == out[i].key
    {
      var o := InsertOwned(rs, m, k, v, t, i);
    }
    hide Put, Lookup, Sorted;
  }

  lemma RemoveRepresents<K(!new), V(!new)>(rs: seq<Record>, m: map<K, V>, k: K, t: Types<K, V>)
    requires t.Faithful() && Represents(rs, m, t)
    ensures Represents(Del(rs, t.key.save(k)), m - {k}, t)
  {
    var key := t.key.save(k);
    var out := Del(rs, key);
    DelSorted(rs, key);
    forall o: K
      ensures Lookup(out, t.key.save(o))
           == if o in m - {k} then Some(Record(t.key.save(o), t.val.save((m - {k})[o]))) else None
    {
      DelLookup(rs, key, t.key.save(o));
      if t.key.save(o) == key {
        SavedKeysDiffer(t, o, k);
      }
    }
    forall i | 0 <= i < |out|
      ensures exists o :: o in m - {k} && t.key.save(o) == out[i].key
    {
      LookupAt(out, i);
      DelLookup(rs, key, out[i].key);
      var j := Rank(rs, out[i].key);
      var o :| o in m && t.key.save(o) == rs[j].key;
      assert o in m - {k};
    }
  }

  /** value() of an entry that is saved as nothing but is not the default value. */
  predicate LosesValue<K(!new), V(!new, ==)>(m: map<K, V>, op: Op<K, V>, t: Types<K, V>) {
    op.Value? && op.k in m && t.val.save(m[op.k]) == "" && m[op.k] != t.val.blank
  }

  /** One operation keeps the agreement, and its answer is the map's exactly when it loses no value. */
  lemma StepAgrees<K(!new), V(!new)>(rs: seq<Record>, m: map<K, V>, op: Op<K, V>, t: Types<K, V>)
    requires t.Faithful() && Represents(rs, m, t)
    ensures Represents(OnRecords(rs, op, t).0, OnMap(m, op, t).0, t)
    ensures OnRecords(rs, op, t).1 == OnMap(m, op, t).1 <==> !LosesValue(m, op, t)
  {
    match op
    case Insert(k, v) => InsertRepresents(rs, m, k, v, t);
    case Remove(k) =>
      RemoveRepresents(rs, m, k, t);
      assert Lookup(rs, t.key.save(k)).Some? <==> k in m;
    case Clear =>
    case Contains(k) => assert Lookup(rs, t.key.save(k)).Some? <==> k in m;
    case Find(k) => assert Lookup(rs, t.key.save(k)).Some? <==> k in m;
    case Value(k) => ValueAgrees(rs, m, k, t);
  }

  lemma ValueAgrees<K(!new), V(!new)>(rs: seq<Record>, m: map<K, V>, k: K, t: Types<K, V>)
    requires t.Faithful() && Represents(rs, m, t)
    ensures Stored(rs, t.key.save(k), t.val) == (if k in m then m[k] else t.val.blank) <==>
            !(k in m && t.val.save(m[k]) == "" && m[k] != t.val.blank)
  {
    var r := Lookup(rs, t.key.save(k));
    if k in m {
      assert r == Some(Record(t.key.save(k), t.val.save(m[k])));
      assert t.val.load(t.val.save(m[k])) == m[k];
    }
  }

  /** No operation of a run loses a value: found by following the map. */
  predicate LosesNothing<K(!new), V(!new, ==)>(m: map<K, V>, ops: seq<Op<K, V>>, t: Types<K, V>)
    decreases |ops|
  {
    ops == [] || (!LosesValue(m, ops[0], t) && LosesNothing(OnMap(m, ops[0], t).0, ops[1..], t))
  }

  /** Every run of operations keeps the agreement with a finite map, and its answers are the map's exactly
      when it loses no value. */
  lemma {:induction false} RunAgrees<K(!new), V(!new)>(rs: seq<Record>, m: map<K, V>, ops: seq<Op<K, V>>,
                                                       t: Types<K, V>)
    requires t.Faithful() && Represents(rs, m, t)
    ensures Represents(RunRecords(rs, ops, t).0, RunMap(m, ops, t).0, t)
    ensures RunRecords(rs, ops, t).1 == RunMap(m, ops, t).1 <==> LosesNothing(m, ops, t)
    decreases |ops|
  {
    if ops != [] {
      StepAgrees(rs, m, ops[0], t);
      hide Represents, OnRecords, OnMap, LosesValue;
      RunAgrees(OnRecords(rs, ops[0], t).0, OnMap(m, ops[0], t).0, ops[1..], t);
      SameAnswers(OnRecords(rs, ops[0], t).1, RunRecords(OnRecords(rs, ops[0], t).0, ops[1..], t).1,
                  OnMap(m, ops[0], t).1, RunMap(OnMap(m, ops[0], t).0, ops[1..], t).1);
    }
  }

  lemma SameAnswers<T>(a: T, more: seq<T>, b: T, others: seq<T>)
    ensures [a] + more == [b] + others <==> a == b && more == others
  {
    assert ([a] + more)[0] == a && ([b] + others)[0] == b;
    assert ([a] + more)[1..] == more && ([b] + others)[1..] == others;
  }

  lemma {:induction false} NothingToLose<K(!new), V(!new)>(m: map<K, V>, ops: seq<Op<K, V>>, t: Types<K, V>)
    requires t.NothingIsBlank()
    ensures LosesNothing(m, ops, t)
    decreases |ops|
  {
    if ops != [] {
      NothingToLose(OnMap(m, ops[0], t).0, ops[1..], t);
    }
  }

  lemma NoRecordsNoEntries<K(!new), V(!new)>(t: Types<K, V>)
    ensures Represents([], map[], t)
  {
  }

  lemma LostValue<K(!new), V(!new)>(k: K, v: V, t: Types<K, V>)
    requires t.val.save(v) == "" && v != t.val.blank
    ensures !LosesNothing(map[], [Insert(k, v), Value(k)], t)
  {
    var ops := [Op<K, V>.Insert(k, v), Value(k)];
    var m: map<K, V> := map[k := v];
    assert ops[1..] == [Value(k)] && OnMap(map[], ops[0], t).0 == m;
    assert LosesValue(m, Op<K, V>.Value(k), t);
    assert !LosesNothing(m, ops[1..], t);
  }

  /** A hash that starts empty answers every run as a map does exactly when nothing but the default value
      is saved as nothing. */
  lemma AlwaysAgreesExactly<K(!new), V(!new)>(k: K, t: Types<K, V>)
    requires t.Faithful()
    ensures (forall ops: seq<Op<K, V>> :: RunRecords([], ops, t).1 == RunMap(map[], ops, t).1) <==> t.NothingIsBlank()
  {
    NoRecordsNoEntries(t);
    hide Represents, LosesNothing, RunRecords, RunMap;
    if t.NothingIsBlank() {
      forall ops: seq<Op<K, V>>
        ensures RunRecords([], ops, t).1 == RunMap(map[], ops, t).1
      {
        RunAgrees([], map[], ops, t);
        NothingToLose(map[], ops, t);
      }
    } else {
      var v :| t.val.save(v) == "" && v != t.val.blank;
      RunAgrees([], map[], [Insert(k, v), Value(k)], t);
      LostValue(k, v, t);
    }
  }

  /** A truth value saved as no bytes when it is true, and as one byte otherwise. */
  const FLAG: MetaType<bool> := MetaType(b => if b then "" else "0", bytes => bytes == "", false)

  const FLAGS: Types<bool, bool> := Types(FLAG, FLAG)

  /** For this type what is saved can be loaded, and yet value() forgets an entry that was inserted. */
  lemma FlagIsLost()
    ensures FLAGS.Faithful()
    ensures var ops := [Insert(false, true), Value(false)];
      RunRecords([], ops, FLAGS).1 != RunMap(map[], ops, FLAGS).1
  {
    NoRecordsNoEntries(FLAGS);
    LostValue(false, true, FLAGS);
    hide RunRecords, RunMap, Represents, LosesNothing;
    RunAgrees([], map[], [Insert(false, true), Value(false)], FLAGS);
  }

  /** What is stored depends on the map alone: two hashes with the same entries have the same records in
      the same order, whatever was done to them before. */
  lemma SameMapSameRecords<K(!new), V(!new)>(a: seq<Record>, b: seq<Record>, m: map<K, V>, t: Types<K, V>)
    requires Represents(a, m, t) && Represents(b, m, t)
    ensures a == b
  {
    forall key
      ensures Lookup(a, key) == Lookup(b, key)
    {
      if At(a, key) {
        var k :| k in m && t.key.save(k) == a[Rank(a, key)].key;
      }
      if At(b, key) {
        var k :| k in m && t.key.save(k) == b[Rank(b, key)].key;
      }
    }
    SameContents(a, b);
  }

  /** Every record a traversal stands at loads as an entry of the map, and no two as the same one. */
  lemma RecordIsEntry<K(!new), V(!new)>(rs: seq<Record>, m: map<K, V>, i: nat, t: Types<K, V>)
    requires t.Faithful() && Represents(rs, m, t) && i < |rs|
    ensures t.key.load(rs[i].key) in m && t.val.load(rs[i].data) == m[t.key.load(rs[i].key)]
    ensures forall j :: 0 <= j < |rs| && j != i ==> t.key.load(rs[j].key) != t.key.load(rs[i].key)
  {
    var k := EntryOf(rs, m, i, t);
    forall j | 0 <= j < |rs| && j != i
      ensures t.key.load(rs[j].key) != t.key.load(rs[i].key)
    {
      var o := EntryOf(rs, m, j, t);
      RankOfRecord(rs, i);
      RankOfRecord(rs, j);
    }
  }

  lemma EntryOf<K(!new), V(!new)>(rs: seq<Record>, m: map<K, V>, i: nat, t: Types<K, V>) returns (k: K)
    requires t.Faithful() && Represents(rs, m, t) && i < |rs|
    ensures k in m && t.key.save(k) == rs[i].key && t.key.load(rs[i].key) == k && t.val.load(rs[i].data) == m[k]
  {
    var key := rs[i].key;
    k :| k in m && t.key.save(k) == key;
    LookupAt(rs, i);
    assert Lookup(rs, t.key.save(k)) == Some(Record(t.key.save(k), t.val.save(m[k])));
    assert t.val.load(t.val.save(m[k])) == m[k];
  }

  /** An entry whose key and value are both saved as nothing, under a key that is not the default one. */
  ghost predicate LosesKey<K(!new), V(!new)>(m: map<K, V>, t: Types<K, V>) {
    exists k :: k in m && t.key.save(k) == "" == t.val.save(m[k]) && k != t.key.blank
  }

  lemma LoadedKeyIs<K(!new), V(!new)>(rs: seq<Record>, m: map<K, V>, i: nat, t: Types<K, V>) returns (k: K)
    requires t.Faithful() && Represents(rs, m, t) && i < |rs|
    ensures k in m && t.key.save(k) == rs[i].key && t.val.save(m[k]) == rs[i].data
    ensures LoadedKeys(rs, t.key)[i] == if t.key.save(k) == "" == t.val.save(m[k]) then t.key.blank else k
  {
    k := EntryOf(rs, m, i, t);
    LookupAt(rs, i);
    assert Lookup(rs, t.key.save(k)) == Some(Record(t.key.save(k), t.val.save(m[k])));
  }

  lemma KeyIsVisited<K(!new), V(!new)>(rs: seq<Record>, m: map<K, V>, k: K, t: Types<K, V>)
    requires t.Faithful() && Represents(rs, m, t) && k in m && !LosesKey(m, t)
    ensures k in LoadedKeys(rs, t.key)
  {
    assert Lookup(rs, t.key.save(k)).Some?;
    var i := Rank(rs, t.key.save(k));
    var o := LoadedKeyIs(rs, m, i, t);
    SavedKeysDiffer(t, k, o);
    assert LoadedKeys(rs, t.key)[i] == k;
  }

  /** A traversal sees exactly the keys of the map, each once, when no entry is saved as nothing at all
      under a key that is not the default one; otherwise it misses that key. */
  lemma TraversalSeesTheMap<K(!new), V(!new)>(rs: seq<Record>, m: map<K, V>, t: Types<K, V>)
    requires t.Faithful() && Represents(rs, m, t)
    ensures (forall k :: k in m <==> k in LoadedKeys(rs, t.key)) <==> !LosesKey(m, t)
    ensures !LosesKey(m, t) ==>
      forall i, j :: 0 <= i < j < |rs| ==> LoadedKeys(rs, t.key)[i] != LoadedKeys(rs, t.key)[j]
  {
    var keys := LoadedKeys(rs, t.key);
    if LosesKey(m, t) {
      LostKeyIsMissed(rs, m, t);
    } else {
      forall k
        ensures k in m <==> k in keys
      {
        if k in m {
          KeyIsVisited(rs, m, k, t);
        }
        if k in keys {
          var i :| 0 <= i < |keys| && keys[i] == k;
          var o := LoadedKeyIs(rs, m, i, t);
        }
      }
      forall i, j | 0 <= i < j < |rs|
        ensures keys[i] != keys[j]
      {
        var a := LoadedKeyIs(rs, m, i, t);
        var b := LoadedKeyIs(rs, m, j, t);
        LessIrreflexive(rs[i].key);
      }
    }
  }

  lemma LostKeyIsMissed<K(!new), V(!new)>(rs: seq<Record>, m: map<K, V>, t: Types<K, V>)
    requires t.Faithful() && Represents(rs, m, t) && LosesKey(m, t)
    ensures exists k :: k in m && k !in LoadedKeys(rs, t.key)
  {
    var keys := LoadedKeys(rs, t.key);
    var k :| k in m && t.key.save(k) == "" == t.val.save(m[k]) && k != t.key.blank;
    if k in keys {
      var i :| 0 <= i < |keys| && keys[i] == k;
      var o := LoadedKeyIs(rs, m, i, t);
    }
  }
}
