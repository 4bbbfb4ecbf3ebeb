/**
 What positions and look-ups in a sorted record sequence amount to.
 */
module BdbOrder {
  import opened ByteArray
  import opened Wrappers
  import opened BdbStore

  // ----- look-ups

  predicate HasRecord(rs: seq<Record>, key: Bytes) {
    exists i :: 0 <= i < |rs| && rs[i].key == key
  }

  /** A key is found exactly when some record has it. */
  lemma AtMeans(rs: seq<Record>, key: Bytes)
    requires Sorted(rs)
    ensures At(rs, key) <==> HasRecord(rs, key)
  {
    if i :| 0 <= i < |rs| && rs[i].key == key {
      RankOfRecord(rs, i);
    }
  }

  lemma LookupAt(rs: seq<Record>, i: nat)
    requires Sorted(rs) && i < |rs|
    ensures Lookup(rs, rs[i].key) == Some(rs[i])
  {
    RankOfRecord(rs, i);
  }

  lemma PutLookupSame(rs: seq<Record>, key: Bytes, data: Bytes)
    requires Sorted(rs)
    ensures Lookup(Put(rs, key, data), key) == Some(Record(key, data))
  {
    PutSorted(rs, key, data);
    PutAt(rs, key, data, Rank(rs, key));
    hide Rank;
    LookupAt(Put(rs, key, data), Rank(rs, key));
  }

  lemma PutLookupKept(rs: seq<Record>, key: Bytes, data: Bytes, other: Bytes)
    requires Sorted(rs) && other != key && At(rs, other)
    ensures Lookup(Put(rs, key, data), other) == Lookup(rs, other)
  {
    var i, n, skip, out := Rank(rs, other), Rank(rs, key), if At(rs, key) then 0 else 1, Put(rs, key, data);
    assert rs[i].key == other && (skip == 0 ==> rs[n].key == key) && |out| == |rs| + skip;
    PutSorted(rs, key, data);
    hide Rank, At, Put;
    var j := if i < n then i else i + skip;
    PutAt(rs, key, data, j);
    assert out[j] == rs[i];
    LookupAt(out, j);
    LookupAt(rs, i);
    hide Lookup;
  }

  lemma PutLookupNew(rs: seq<Record>, key: Bytes, data: Bytes, other: Bytes)
    requires Sorted(rs) && other != key && At(Put(rs, key, data), other)
    ensures At(rs, other)
  {
    var n, skip, out := Rank(rs, key), if At(rs, key) then 0 else 1, Put(rs, key, data);
    var j := Rank(out, other);
    PutAt(rs, key, data, j);
    assert |out| == |rs| + skip;
    hide Put, Rank;
    RankOfRecord(rs, if j < n then j else j - skip);
  }

  /** A record after a put is the one that was put, or one there was before. */
  lemma PutOrigin(rs: seq<Record>, key: Bytes, data: Bytes, i: nat) returns (j: int)
    requires Sorted(rs) && i < |Put(rs, key, data)|
    ensures -1 <= j < |rs|
    ensures Put(rs, key, data)[i].key == if j == -1 then key else rs[j].key
  {
    var n, skip := Rank(rs, key), if At(rs, key) then 0 else 1;
    PutAt(rs, key, data, i);
    assert |Put(rs, key, data)| == |rs| + skip;
    hide Put, Rank, At;
    j := if i == n then -1 else if i < n then i else i - skip;
  }

  /** put changes one look-up. */
  lemma PutLookup(rs: seq<Record>, key: Bytes, data: Bytes, other: Bytes)
    requires Sorted(rs)
    ensures Lookup(Put(rs, key, data), other) == if other == key then Some(Record(key, data)) else Lookup(rs, other)
  {
    hide Put, Rank, Sorted;
    if other == key {
      PutLookupSame(rs, key, data);
    } else if At(rs, other) {
      PutLookupKept(rs, key, data, other);
    } else if At(Put(rs, key, data), other) {
      PutLookupNew(rs, key, data, other);
    }
  }

  /** del removes one look-up. */
  lemma DelLookup(rs: seq<Record>, key: Bytes, other: Bytes)
    requires Sorted(rs)
    ensures Lookup(Del(rs, key), other) == if other == key then None else Lookup(rs, other)
  {
    var n, out := Rank(rs, key), Del(rs, key);
    DelSorted(rs, key);
    if At(rs, key) && other != key {
      hide Del, Rank;
      if At(rs, other) {
        var i := Rank(rs, other);
        var j := if i < n then i else i - 1;
        DelAt(rs, key, j);
        LookupAt(out, j);
      } else if At(out, other) {
        var j := Rank(out, other);
        DelAt(rs, key, j);
        RankOfRecord(rs, if j < n then j else j + 1);
      }
    }
  }

  /** The look-ups determine the records and their order: what a traversal sees depends on nothing but
      the contents. */
  lemma {:induction false} SameContents(a: seq<Record>, b: seq<Record>)
    requires Sorted(a) && Sorted(b)
    requires forall key :: Lookup(a, key) == Lookup(b, key)
    ensures a == b
  {
    forall i | 0 <= i < |a| && i < |b|
      ensures a[..i] == b[..i] ==> a[i] == b[i]
    {
      SameNext(a, b, i);
    }
    SamePrefix(a, b, if |a| < |b| then |a| else |b|);
    if |a| < |b| {
      LookupAt(b, |a|);
      SameLength(a, b);
    } else if |b| < |a| {
      LookupAt(a, |b|);
      SameLength(b, a);
    }
  }

  lemma {:induction false} SamePrefix(a: seq<Record>, b: seq<Record>, n: nat)
    requires n <= |a| && n <= |b|
    requires forall i :: 0 <= i < n ==> (a[..i] == b[..i] ==> a[i] == b[i])
    ensures a[..n] == b[..n]
  {
    if n > 0 {
      SamePrefix(a, b, n - 1);
      assert a[..n] == a[..n - 1] + [a[n - 1]];
      assert b[..n] == b[..n - 1] + [b[n - 1]];
    }
  }

  lemma SameNext(a: seq<Record>, b: seq<Record>, i: nat)
    requires Sorted(a) && Sorted(b) && i < |a| && i < |b|
    requires forall key :: Lookup(a, key) == Lookup(b, key)
    ensures a[..i] == b[..i] ==> a[i] == b[i]
  {
    if a[..i] == b[..i] {
      LookupAt(a, i);
      LookupAt(b, i);
      var j, k := Rank(b, a[i].key), Rank(a, b[i].key);
      assert b[j] == a[i] && a[k] == b[i];
      NotAmongFirst(a, b, i, j);
      NotAmongFirst(b, a, i, k);
      if j > i && k > i {
        LessNotBack(a[i].key, a[k].key);
      }
    }
  }

  lemma NotAmongFirst(a: seq<Record>, b: seq<Record>, i: nat, j: nat)
    requires Sorted(a) && i < |a| && i <= |b| && j < |b| && a[..i] == b[..i] && b[j] == a[i]
    ensures j >= i
  {
    if j < i {
      assert a[..i][j] == b[..i][j];
      LessIrreflexive(a[i].key);
    }
  }

  lemma SameLength(a: seq<Record>, b: seq<Record>)
    requires Sorted(a) && Sorted(b) && |a| <= |b| && a == b[..|a|]
    requires forall key :: Lookup(a, key) == Lookup(b, key)
    ensures |a| == |b|
  {
    if |a| < |b| {
      LessIrreflexive(b[|a|].key);
      assert forall i :: 0 <= i < |a| ==> a[i] == b[i];
      LookupAt(b, |a|);
    }
  }

  // ----- positions

  function KeyOf(r: Option<Record>): Option<Bytes> {
    if r.None? then None else Some(r.value.key)
  }

  /** Where an iterator stands: at a key, or nowhere. */
  function After(rs: seq<Record>, place: Option<Bytes>): Option<Bytes> {
    if place.None? then None else KeyOf(NextOf(rs, place.value))
  }

  function Before(rs: seq<Record>, place: Option<Bytes>): Option<Bytes> {
    if place.None? then None else KeyOf(PrevOf(rs, place.value))
  }

  /** j steps, forward or backward. */
  function Shift(rs: seq<Record>, place: Option<Bytes>, j: int): Option<Bytes>
    decreases if j < 0 then -j else j
  {
    if j == 0 then place
    else if j > 0 then Shift(rs, After(rs, place), j - 1)
    else Shift(rs, Before(rs, place), j + 1)
  }

  /** The place of record i, for any i. */
  function PlaceOf(rs: seq<Record>, i: int): Option<Bytes> {
    if 0 <= i < |rs| then Some(rs[i].key) else None
  }

  lemma StepsOfRecord(rs: seq<Record>, i: nat)
    requires Sorted(rs) && i < |rs|
    ensures After(rs, Some(rs[i].key)) == PlaceOf(rs, i + 1)
    ensures Before(rs, Some(rs[i].key)) == PlaceOf(rs, i - 1)
  {
    RankOfRecord(rs, i);
  }

  lemma {:induction false} ShiftOfNowhere(rs: seq<Record>, j: int)
    ensures Shift(rs, None, j) == None
    decreases if j < 0 then -j else j
  {
    if j > 0 {
      ShiftOfNowhere(rs, j - 1);
    } else if j < 0 {
      ShiftOfNowhere(rs, j + 1);
    }
  }

  lemma {:induction false} ShiftForward(rs: seq<Record>, p: nat, n: nat)
    requires Sorted(rs) && p < |rs|
    ensures Shift(rs, Some(rs[p].key), n) == PlaceOf(rs, p + n)
    decreases n
  {
    if n > 0 {
      StepsOfRecord(rs, p);
      hide After, Before, Sorted;
      if p + 1 < |rs| {
        ShiftForward(rs, p + 1, n - 1);
      } else {
        ShiftOfNowhere(rs, n - 1);
      }
    }
  }

  lemma {:induction false} ShiftBackward(rs: seq<Record>, p: nat, n: nat)
    requires Sorted(rs) && p < |rs|
    ensures Shift(rs, Some(rs[p].key), 0 - n) == PlaceOf(rs, p - n)
    decreases n
  {
    if n > 0 {
      StepsOfRecord(rs, p);
      hide After, Before, Sorted;
      if p > 0 {
        ShiftBackward(rs, p - 1, n - 1);
      } else {
        ShiftOfNowhere(rs, 1 - n);
      }
    }
  }

  /** From record p, j steps lead to record p + j, or nowhere when there is none. */
  lemma ShiftIsAddition(rs: seq<Record>, p: nat, j: int)
    requires Sorted(rs) && p < |rs|
    ensures Shift(rs, Some(rs[p].key), j) == PlaceOf(rs, p + j)
  {
    hide Shift;
    if j >= 0 {
      ShiftForward(rs, p, j);
    } else {
      ShiftBackward(rs, p, -j);
    }
  }

  /** Two shifts in a row are one by their sum exactly when the place between them exists, or the sum
      leads nowhere too. */
  lemma ShiftsAddUp(rs: seq<Record>, p: nat, a: int, b: int)
    requires Sorted(rs) && p < |rs|
    ensures Shift(rs, Shift(rs, Some(rs[p].key), a), b) == Shift(rs, Some(rs[p].key), a + b) <==>
            0 <= p + a < |rs| || !(0 <= p + a + b < |rs|)
  {
    hide Shift;
    ShiftIsAddition(rs, p, a);
    ShiftIsAddition(rs, p, a + b);
    if 0 <= p + a < |rs| {
      ShiftIsAddition(rs, p + a, b);
    } else {
      ShiftOfNowhere(rs, b);
    }
  }

  /** From the first record, n steps forward reach record n, for every n, and then nothing; from the last,
      n steps backward reach the records in reverse. */
  lemma Traversal(rs: seq<Record>, n: nat)
    requires Sorted(rs)
    ensures Shift(rs, KeyOf(FirstOf(rs)), n) == PlaceOf(rs, n)
    ensures Shift(rs, KeyOf(LastOf(rs)), 0 - n) == PlaceOf(rs, |rs| - 1 - n)
  {
    hide Shift;
    if rs == [] {
      ShiftOfNowhere(rs, n);
      ShiftOfNowhere(rs, 0 - n);
    } else {
      ShiftIsAddition(rs, 0, n);
      ShiftIsAddition(rs, |rs| - 1, 0 - n);
    }
  }

  /** The record after a key, stored or not, is the nearest above it. */
  lemma NextIsNearest(rs: seq<Record>, key: Bytes, i: nat)
    requires Sorted(rs) && i < |rs|
    ensures var r := NextOf(rs, key);
      && (r.Some? ==> r.value in rs && Less(key, r.value.key))
      && (Less(key, rs[i].key) ==> r.Some? && !Less(rs[i].key, r.value.key))
  {
    var n := if At(rs, key) then Rank(rs, key) + 1 else Rank(rs, key);
    if n < |rs| {
      AboveRank(rs, key, n);
    }
    if Less(key, rs[i].key) {
      NotBelow(rs, key, i);
      NotLater(rs, n, i);
    }
    hide Rank, Less;
  }

  lemma NotBelow(rs: seq<Record>, key: Bytes, i: nat)
    requires Sorted(rs) && i < |rs| && Less(key, rs[i].key)
    ensures i >= if At(rs, key) then Rank(rs, key) + 1 else Rank(rs, key)
  {
    LessNotBack(key, rs[i].key);
    hide Rank, Less;
  }

  lemma NotLater(rs: seq<Record>, n: nat, i: nat)
    requires Sorted(rs) && n <= i < |rs|
    ensures !Less(rs[i].key, rs[n].key)
  {
    if n == i {
      LessIrreflexive(rs[i].key);
    } else {
      LessNotBack(rs[n].key, rs[i].key);
    }
  }

  /** The record before a key, stored or not, is the nearest below it. */
  lemma PrevIsNearest(rs: seq<Record>, key: Bytes, i: nat)
    requires Sorted(rs) && i < |rs|
    ensures var r := PrevOf(rs, key);
      && (r.Some? ==> r.value in rs && Less(r.value.key, key))
      && (Less(rs[i].key, key) ==> r.Some? && !Less(r.value.key, rs[i].key))
  {
    var n := Rank(rs, key);
    if Less(rs[i].key, key) {
      if i >= n {
        AboveRank(rs, key, i);
        LessNotBack(rs[i].key, key);
      }
      NotLater(rs, i, n - 1);
    }
    hide Rank, Less;
  }

  /** A position whose record is gone still leads to the same neighbour. */
  lemma AfterDeleted(rs: seq<Record>, key: Bytes)
    requires Sorted(rs)
    ensures After(Del(rs, key), Some(key)) == After(rs, Some(key))
  {
    DelSorted(rs, key);
  }

  /** Taking out a record by its place keeps all others and their order. */
  lemma DelOfRecord(rs: seq<Record>, i: nat)
    requires Sorted(rs) && i < |rs|
    ensures Del(rs, rs[i].key) == rs[..i] + rs[i + 1..]
  {
    RankOfRecord(rs, i);
  }
}
