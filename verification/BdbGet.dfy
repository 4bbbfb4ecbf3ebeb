/**
 QxtBdb::get: fetching a record with two calls, the first to learn the sizes (src/bdb/qxtbdb.cpp).
 */
module BdbGet {
  import opened ByteArray
  import opened Wrappers
  import opened BdbStore

  /** QMetaType::save and QMetaType::load of a registered type, and its default-constructed value. */
  datatype MetaType<!T(!new)> = MetaType(save: T -> Bytes, load: Bytes -> T, blank: T) {
    /** What was saved can be loaded. */
    ghost predicate Faithful() {
      forall t :: load(save(t)) == t
    }
  }

  /** A variable whose address is passed. */
  class Cell<T> {
    var value: T

    constructor (value: T)
      ensures this.value == value
    {
      this.value := value;
    }
  }

  /** The record a get is after. */
  ghost function Wanted(rs: seq<Record>, cursor: Cursor?, flag: Flag): Option<Record>
    reads cursor
  {
    Target(rs, if cursor == null then Unset else cursor.at, flag)
  }

  /** What a key variable is saved as. */
  function SavedKey<K(!new)>(key: Cell?<K>, keyType: MetaType<K>): Bytes
    reads key
  {
    if key != null then keyType.save(key.value) else ""
  }

  class QxtBdb {
    const db: Store
    var isOpen: bool

    constructor ()
      ensures fresh(db) && db.records == [] && !isOpen
    {
      db := new Store();
      isOpen := false;
    }

    /** get for operations that read the key out of the store: the sizing call with no room, then the
        fetching call with the room it asked for.  The two have the effect of one store operation: they
        fail with everything as it was, or move the cursor to the record and load it.  The one exception
        is a record with nothing in it, for which the sizing call already succeeds and nothing is
        loaded. */
    method Get<K(!new), V(!new)>(key: Cell?<K>, keyType: MetaType<K>, value: Cell?<V>, valueType: MetaType<V>,
                     flag: Flag, cursor: Cursor?) returns (ok: bool)
      requires ReturnsKey(flag) && cursor != null
      requires (key as object?) != value || key == null
      modifies key, value, cursor
      ensures ok <==> old(Wanted(db.records, cursor, flag)).Some?
      ensures !ok ==> unchanged(cursor) && (key != null ==> unchanged(key)) && (value != null ==> unchanged(value))
      ensures ok ==>
        var r := old(Wanted(db.records, cursor, flag)).value;
        && cursor.at == On(r.key)
        && (key != null ==> key.value == if r.key == "" == r.data then old(key.value) else keyType.load(r.key))
        && (value != null ==> value.value == if r.key == "" == r.data then old(value.value) else valueType.load(r.data))
    {
      var dbkey := new Dbt(if key != null then keyType.save(key.value) else "", 0);
      var dbvalue := new Dbt(if value != null then valueType.save(value.value) else "", 0);

      var ret := db.CGet(cursor, dbkey, dbvalue, flag);
      if ret != BufferSmall { return ret == Done; }
      dbvalue.ulen := dbvalue.size;
      dbkey.ulen := dbkey.size;

      ret := db.CGet(cursor, dbkey, dbvalue, flag);
      if ret != Done { return false; }
      if key != null { key.value := keyType.load(dbkey.data); }
      if value != null { value.value := valueType.load(dbvalue.data); }
      return true;
    }

    /** The same get without a cursor, which looks for the key it is given.  Between the two calls the key
        buffer is allocated anew and not filled again, so the fetching call looks for whatever `scratch`
        is left in that memory. */
    method GetWithoutCursor<K(!new), V(!new)>(key: Cell?<K>, keyType: MetaType<K>, value: Cell?<V>,
                     valueType: MetaType<V>, scratch: Bytes) returns (ok: bool)
      requires (key as object?) != value || key == null
      requires |scratch| == |SavedKey(key, keyType)|
      modifies key, value
      ensures var sized := Lookup(db.records, old(SavedKey(key, keyType)));
        var fetched := Lookup(db.records, scratch);
        if sized.None? || sized.value.data == "" then
          ok == sized.Some? && (key != null ==> unchanged(key)) && (value != null ==> unchanged(value))
        else
          && (ok <==> fetched.Some? && |fetched.value.data| <= |sized.value.data|)
          && (key != null ==> key.value == if ok then keyType.load(scratch) else old(key.value))
          && (value != null ==> value.value == if ok then valueType.load(fetched.value.data) else old(value.value))
    {
      var dbkey := new Dbt(SavedKey(key, keyType), 0);
      var dbvalue := new Dbt(if value != null then valueType.save(value.value) else "", 0);

      var ret := db.CGet(null, dbkey, dbvalue, Set(dbkey.data));
      if ret != BufferSmall { return ret == Done; }
      dbvalue.ulen := dbvalue.size;
      dbkey.ulen := dbkey.size;
      dbkey.data := scratch;

      ret := db.CGet(null, dbkey, dbvalue, Set(dbkey.data));
      if ret != Done { return false; }
      if key != null { key.value := keyType.load(dbkey.data); }
      if value != null { value.value := valueType.load(dbvalue.data); }
      return true;
    }

    /** get for operations that are given the key: only the value is sized and fetched, and a record
        whose data is empty is found by the sizing call, with nothing loaded. */
    method GetAt<V(!new)>(key: Bytes, value: Cell?<V>, valueType: MetaType<V>, cursor: Cursor?) returns (ok: bool)
      modifies value, cursor
      ensures ok <==> Lookup(db.records, key).Some?
      ensures !ok ==> (cursor != null ==> unchanged(cursor)) && (value != null ==> unchanged(value))
      ensures ok ==>
        var r := Lookup(db.records, key).value;
        && (cursor != null ==> cursor.at == On(r.key))
        && (value != null ==> value.value == if r.data == "" then old(value.value) else valueType.load(r.data))
    {
      var dbkey := new Dbt(key, 0);
      var dbvalue := new Dbt(if value != null then valueType.save(value.value) else "", 0);

      var ret := db.CGet(cursor, dbkey, dbvalue, Set(key));
      if ret != BufferSmall { return ret == Done; }
      dbvalue.ulen := dbvalue.size;

      ret := db.CGet(cursor, dbkey, dbvalue, Set(key));
      if ret != Done { return false; }
      if value != null { value.value := valueType.load(dbvalue.data); }
      return true;
    }
  }
}
