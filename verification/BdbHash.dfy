/**
 QxtBdbHash and its iterator (src/bdb/qxtbdbhash.h) on top of the store.
 */
module BdbHash {
  import opened ByteArray
  import opened Wrappers
  import opened BdbStore
  import opened BdbOrder
  import opened BdbGet

  const INT_MIN := -0x8000_0000
  const INT_MAX := 0x7fff_ffff

  /** j*(-1) in 32 bits. */
  function Negate(j: int): (r: int)
    requires INT_MIN <= j <= INT_MAX
    ensures INT_MIN <= r <= INT_MAX
  {
    if j == INT_MIN then INT_MIN else -j
  }

  /** A call of += or -= on an iterator. */
  datatype ShiftCall = ShiftCall(plus: bool, j: int)

  /** The steps a call asks for; positive ones go forward. */
  function Steps(call: ShiftCall): int {
    if call.plus then call.j else -call.j
  }

  /** A negative j is negated and handed to the other operator. */
  function Delegated(call: ShiftCall): ShiftCall
    requires INT_MIN <= call.j <= INT_MAX
  {
    ShiftCall(!call.plus, Negate(call.j))
  }

  /** The call reached after as many delegations, or the one that delegates no more. */
  function Delegations(call: ShiftCall, n: nat): ShiftCall
    requires INT_MIN <= call.j <= INT_MAX
    decreases n
  {
    if n == 0 || call.j >= 0 then call else Delegations(Delegated(call), n - 1)
  }

  lemma {:induction false} LeastGoesOn(call: ShiftCall, n: nat)
    requires call.j == INT_MIN
    ensures Delegations(call, n).j == INT_MIN
    decreases n
  {
    if n > 0 {
      LeastGoesOn(Delegated(call), n - 1);
    }
  }

  /** The operators stop calling each other for every 32-bit j but the least, after one delegation at most
      and with the same steps to go; the least is its own negative, and for it they never stop. */
  lemma DelegationEndsExactlyWhen(call: ShiftCall)
    requires INT_MIN <= call.j <= INT_MAX
    ensures (exists n: nat :: Delegations(call, n).j >= 0) <==> call.j != INT_MIN
    ensures call.j != INT_MIN ==> Delegations(call, 1).j >= 0 && Steps(Delegations(call, 1)) == Steps(call)
  {
    if call.j == INT_MIN {
      forall n: nat
        ensures Delegations(call, n).j < 0
      {
        LeastGoesOn(call, n);
      }
    } else {
      assert Delegations(call, 1).j >= 0;
    }
  }

  /** The key a record loads as; a record with nothing in it is not loaded. */
  function LoadedKey<K(!new)>(r: Record, keyType: MetaType<K>): K {
    if r.key == "" == r.data then keyType.blank else keyType.load(r.key)
  }

  function LoadedKeys<K(!new)>(rs: seq<Record>, keyType: MetaType<K>): seq<K> {
    seq(|rs|, i requires 0 <= i < |rs| => LoadedKey(rs[i], keyType))
  }

  /** An iterator at record i finds it, and the records beside it are one step away. */
  lemma AtRecord<K(!new)>(rs: seq<Record>, i: nat, keyType: MetaType<K>)
    requires Sorted(rs) && i < |rs|
    ensures Lookup(rs, rs[i].key) == Some(rs[i]) && LoadedKeys(rs, keyType)[i] == LoadedKey(rs[i], keyType)
    ensures After(rs, Some(rs[i].key)) == PlaceOf(rs, i + 1)
    ensures Before(rs, Some(rs[i].key)) == PlaceOf(rs, i - 1)
  {
    LookupAt(rs, i);
    StepsOfRecord(rs, i);
    hide Lookup, After, Before, LoadedKey;
  }

  class HashIterator<K(!new), V(!new)> {
    const keyType: MetaType<K>
    const valType: MetaType<V>
    const db: QxtBdb?
    var dbc: Cursor?

    ghost predicate Valid()
      reads this, dbc
    {
      dbc != null ==> db != null && dbc.at.On?
    }

    ghost function Records(): seq<Record>
      reads this, db, if db == null then {} else {db.db}
    {
      if db == null then [] else db.db.records
    }

    /** The key the iterator stands at; nowhere once it is invalid. */
    ghost function Place(): Option<Bytes>
      requires Valid()
      reads this, dbc
    {
      if dbc == null then None else Some(dbc.at.key)
    }

    constructor Nowhere(keyType: MetaType<K>, valType: MetaType<V>)
      ensures Valid() && Place() == None && db == null && this.keyType == keyType && this.valType == valType
    {
      this.keyType, this.valType := keyType, valType;
      db, dbc := null, null;
    }

    constructor (dbc: Cursor, db: QxtBdb, keyType: MetaType<K>, valType: MetaType<V>)
      requires dbc.at.On?
      ensures Valid() && this.dbc == dbc && this.db == db && this.keyType == keyType && this.valType == valType
    {
      this.keyType, this.valType := keyType, valType;
      this.db, this.dbc := db, dbc;
    }

    predicate IsValid()
      reads this
    {
      dbc != null
    }

    method Invalidate()
      modifies this
      ensures dbc == null
    {
      dbc := null;
    }

    /** The key of the record the iterator stands at, a default-constructed one when there is none. */
    method Key() returns (k: K)
      requires Valid()
      modifies dbc
      ensures Valid() && Place() == old(Place())
      ensures var r := if Place().Some? then Lookup(Records(), Place().value) else None;
        k == if r.Some? then LoadedKey(r.value, keyType) else keyType.blank
    {
      if dbc == null { return keyType.blank; }
      var cell := new Cell<K>(keyType.blank);
      var ok := db.Get<K, V>(cell, keyType, null, valType, Current, dbc);
      return if ok then cell.value else keyType.blank;
    }

    method Value() returns (v: V)
      requires Valid()
      modifies dbc
      ensures Valid() && Place() == old(Place())
      ensures var r := if Place().Some? then Lookup(Records(), Place().value) else None;
        v == if r.Some? && !(r.value.key == "" == r.value.data) then valType.load(r.value.data) else valType.blank
    {
      if dbc == null { return valType.blank; }
      var cell := new Cell<V>(valType.blank);
      var ok := db.Get<K, V>(null, keyType, cell, valType, Current, dbc);
      return if ok then cell.value else valType.blank;
    }

    /** ++ */
    method Increment()
      requires Valid()
      modifies this, dbc
      ensures Valid() && Place() == After(Records(), old(Place())) && (dbc == old(dbc) || dbc == null)
    {
      if dbc == null { return; }
      var ok := db.Get<K, V>(null, keyType, null, valType, Next, dbc);
      if !ok { Invalidate(); }
    }

    /** -- */
    method Decrement()
      requires Valid()
      modifies this, dbc
      ensures Valid() && Place() == Before(Records(), old(Place())) && (dbc == old(dbc) || dbc == null)
    {
      if dbc == null { return; }
      var ok := db.Get<K, V>(null, keyType, null, valType, Prev, dbc);
      if !ok { Invalidate(); }
    }

    /** += */
    method PlusAssign(j: int)
      requires Valid() && INT_MIN < j <= INT_MAX
      modifies this, dbc
      ensures Valid() && Place() == Shift(Records(), old(Place()), j) && (dbc == old(dbc) || dbc == null)
      decreases if j < 0 then 1 else 0
    {
      if j < 0 {
        MinusAssign(Negate(j));
        return;
      }
      var i := 0;
      while i < j
        invariant 0 <= i <= j && Valid() && (dbc == old(dbc) || dbc == null)
        invariant Shift(Records(), Place(), j - i) == Shift(Records(), old(Place()), j)
      {
        Increment();
        i := i + 1;
      }
    }

    /** -= */
    method MinusAssign(j: int)
      requires Valid() && INT_MIN < j <= INT_MAX
      modifies this, dbc
      ensures Valid() && Place() == Shift(Records(), old(Place()), -j) && (dbc == old(dbc) || dbc == null)
      decreases if j < 0 then 1 else 0
    {
      if j < 0 {
        PlusAssign(Negate(j));
        return;
      }
      var i := 0;
      while i < j
        invariant 0 <= i <= j && Valid() && (dbc == old(dbc) || dbc == null)
        invariant Shift(Records(), Place(), i - j) == Shift(Records(), old(Place()), -j)
      {
        Decrement();
        i := i + 1;
      }
    }

    /** Removes the record under a valid iterator, which becomes invalid, and returns an iterator at the
        next record. */
    method Erase() returns (d: HashIterator<K, V>)
      requires Valid() && dbc != null && Sorted(Records())
      modifies this, db.db
      ensures Valid() && Place() == None
      ensures fresh(d) && d.Valid() && d.db == db && d.keyType == keyType && d.valType == valType
      ensures d.dbc != null ==> fresh(d.dbc)
      ensures Records() == Del(old(Records()), old(Place()).value) && Sorted(Records())
      ensures d.Place() == After(old(Records()), old(Place()))
    {
      AfterDeleted(Records(), dbc.at.key);
      DelSorted(Records(), dbc.at.key);
      var newdbc := new Cursor(dbc.at);
      d := new HashIterator<K, V>(newdbc, db, keyType, valType);
      db.db.CDel(dbc);
      d.Increment();
      Invalidate();
    }
  }

  class BdbHash<K(!new), V(!new)> {
    const keyType: MetaType<K>
    const valType: MetaType<V>
    const bdb: QxtBdb

    ghost function Records(): seq<Record>
      reads this, bdb.db
    {
      bdb.db.records
    }

    ghost predicate Valid()
      reads this, bdb.db
    {
      Sorted(Records())
    }

    constructor (keyType: MetaType<K>, valType: MetaType<V>)
      ensures Valid() && fresh(bdb) && fresh(bdb.db) && Records() == [] && !bdb.isOpen
      ensures this.keyType == keyType && this.valType == valType
    {
      this.keyType, this.valType := keyType, valType;
      bdb := new QxtBdb();
    }

    /** A fresh cursor looked for with a flag, as begin, end and find do. */
    method IteratorAt(flag: Flag) returns (it: HashIterator<K, V>)
      requires flag.First? || flag.Last? || flag.Set?
      ensures fresh(it) && it.Valid() && it.keyType == keyType && it.valType == valType
      ensures it.dbc != null ==> fresh(it.dbc) && it.db == bdb
      ensures it.Place() == KeyOf(Target(Records(), Unset, flag))
    {
      var cursor := new Cursor(Unset);
      var ok;
      if flag.Set? {
        ok := bdb.GetAt<V>(flag.key, null, valType, cursor);
      } else {
        ok := bdb.Get<K, V>(null, keyType, null, valType, flag, cursor);
      }
      if ok {
        it := new HashIterator<K, V>(cursor, bdb, keyType, valType);
      } else {
        it := new HashIterator<K, V>.Nowhere(keyType, valType);
      }
    }

    method Begin() returns (it: HashIterator<K, V>)
      ensures fresh(it) && it.Valid() && it.keyType == keyType && it.valType == valType
      ensures it.dbc != null ==> fresh(it.dbc) && it.db == bdb
      ensures it.Place() == PlaceOf(Records(), 0)
    {
      it := IteratorAt(First);
    }

    /** The last record, not one past it. */
    method End() returns (it: HashIterator<K, V>)
      ensures fresh(it) && it.Valid() && it.keyType == keyType && it.valType == valType
      ensures it.dbc != null ==> fresh(it.dbc) && it.db == bdb
      ensures it.Place() == PlaceOf(Records(), |Records()| - 1)
    {
      it := IteratorAt(Last);
    }

    method Find(k: K) returns (it: HashIterator<K, V>)
      requires Valid()
      ensures fresh(it) && it.Valid() && it.keyType == keyType && it.valType == valType
      ensures it.dbc != null ==> fresh(it.dbc) && it.db == bdb
      ensures it.Place() == if HasRecord(Records(), keyType.save(k)) then Some(keyType.save(k)) else None
    {
      AtMeans(Records(), keyType.save(k));
      it := IteratorAt(Set(keyType.save(k)));
    }

    method Clear()
      requires Valid()
      modifies bdb.db
      ensures Valid()
      ensures Records() == if bdb.isOpen then [] else old(Records())
    {
      if !bdb.isOpen { return; }
      bdb.db.Truncate();
    }

    method Contains(k: K) returns (found: bool)
      requires Valid()
      ensures found <==> bdb.isOpen && HasRecord(Records(), keyType.save(k))
    {
      if !bdb.isOpen { return false; }
      AtMeans(Records(), keyType.save(k));
      found := bdb.db.Exists(keyType.save(k));
    }

    method Remove(k: K) returns (ok: bool)
      requires Valid()
      modifies bdb.db
      ensures Valid() && (ok <==> bdb.isOpen && HasRecord(old(Records()), keyType.save(k)))
      ensures Records() == if bdb.isOpen then Del(old(Records()), keyType.save(k)) else old(Records())
    {
      if !bdb.isOpen { return false; }
      AtMeans(Records(), keyType.save(k));
      DelSorted(Records(), keyType.save(k));
      ok := bdb.db.DbDel(keyType.save(k));
    }

    method Insert(k: K, v: V) returns (ok: bool)
      requires Valid()
      modifies bdb.db
      ensures Valid() && ok == bdb.isOpen
      ensures Records() == if bdb.isOpen then Put(old(Records()), keyType.save(k), valType.save(v)) else old(Records())
    {
      if !bdb.isOpen { return false; }
      PutSorted(Records(), keyType.save(k), valType.save(v));
      bdb.db.DbPut(keyType.save(k), valType.save(v));
      return true;
    }

    method Value(k: K) returns (v: V)
      ensures v == if bdb.isOpen then Stored(Records(), keyType.save(k), valType) else valType.blank
    {
      if !bdb.isOpen { return valType.blank; }
      var cell := new Cell<V>(valType.blank);
      var ok := bdb.GetAt(keyType.save(k), cell, valType, null);
      return if ok then cell.value else valType.blank;
    }

    /** The loop "for (it = begin(); it.isValid(); ++it)": every key once, in key order. */
    method KeysForward() returns (keys: seq<K>)
      requires Valid()
      ensures keys == LoadedKeys(Records(), keyType)
    {
      hide Sorted, Lookup, After, Before, LoadedKey;
      var it := Begin();
      keys := [];
      while it.IsValid()
        invariant fresh(it) && it.Valid() && it.keyType == keyType && (it.dbc != null ==> fresh(it.dbc) && it.db == bdb)
        invariant |keys| <= |Records()| && it.Place() == PlaceOf(Records(), |keys|)
        invariant keys == LoadedKeys(Records(), keyType)[..|keys|]
        decreases |Records()| - |keys|
      {
        AtRecord(Records(), |keys|, keyType);
        var k := it.Key();
        it.Increment();
        keys := keys + [k];
      }
    }

    /** The loop from end() with --: the same keys, the last one first. */
    method KeysBackward() returns (keys: seq<K>)
      requires Valid()
      ensures |keys| == |Records()|
      ensures forall i :: 0 <= i < |keys| ==> keys[i] == LoadedKeys(Records(), keyType)[|keys| - 1 - i]
    {
      hide Sorted, Lookup, After, Before, LoadedKey;
      var it := End();
      keys := [];
      ghost var n := |Records()|;
      while it.IsValid()
        invariant fresh(it) && it.Valid() && it.keyType == keyType && (it.dbc != null ==> fresh(it.dbc) && it.db == bdb)
        invariant n == |Records()| && |keys| <= n && it.Place() == PlaceOf(Records(), n - 1 - |keys|)
        invariant forall i :: 0 <= i < |keys| ==> keys[i] == LoadedKeys(Records(), keyType)[n - 1 - i]
        decreases n - |keys|
      {
        AtRecord(Records(), n - 1 - |keys|, keyType);
        var k := it.Key();
        it.Decrement();
        keys := keys + [k];
      }
    }

    /** Erasing from the first record for as long as there is one. */
    method EraseAll()
      requires Valid()
      modifies bdb.db
      ensures Valid() && Records() == []
    {
      var it := Begin();
      while it.IsValid()
        invariant it.Valid() && fresh(it) && (it.dbc != null ==> fresh(it.dbc) && it.db == bdb)
        invariant Sorted(Records()) && it.Place() == PlaceOf(Records(), 0)
        decreases |Records()|
      {
        DelOfRecord(Records(), 0);
        StepsOfRecord(Records(), 0);
        it := it.Erase();
      }
    }
  }

  /** What value() finds: a record without data counts as a default-constructed value. */
  function Stored<V(!new)>(rs: seq<Record>, key: Bytes, valType: MetaType<V>): V {
    if At(rs, key) && rs[Rank(rs, key)].data != "" then valType.load(rs[Rank(rs, key)].data) else valType.blank
  }
}
