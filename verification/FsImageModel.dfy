/**
 The image list of the flow view example, kept in step with a directory and with the watcher that
 reports on it (examples/qxtflowview/fsimagemodel.cpp).
 */
module FsImageModel {
  import opened Wrappers

  type Name = string

  predicate Distinct(s: seq<Name>) {
    forall i, j :: 0 <= i < j < |s| ==> s[i] != s[j]
  }

  lemma NextIsNew(s: seq<Name>, i: nat)
    requires Distinct(s) && i < |s|
    ensures s[i] !in s[..i] && s[..i + 1] == s[..i] + [s[i]]
  {
  }

  function Elements(s: seq<Name>): set<Name> {
    set x | x in s
  }

  /** The entries of `s` that are in `keep`, in their order. */
  function Only(s: seq<Name>, keep: set<Name>): (r: seq<Name>)
    ensures forall x :: x in r <==> x in s && x in keep
  {
    if s == [] then []
    else (if s[0] in keep then [s[0]] else []) + Only(s[1..], keep)
  }

  function Except(s: seq<Name>, drop: set<Name>): (r: seq<Name>)
    ensures forall x :: x in r <==> x in s && x !in drop
  {
    if s == [] then []
    else (if s[0] in drop then [] else [s[0]]) + Except(s[1..], drop)
  }

  /** What a change of the directory makes of the list: the entries that are still there, in their old
      order, then the new ones, in the order of the listing. */
  function Sync(files: seq<Name>, listing: seq<Name>, present: set<Name>): seq<Name> {
    Only(files, present + Elements(listing)) + Except(listing, Elements(files))
  }

  lemma {:induction false} ExceptDistinct(s: seq<Name>, drop: set<Name>)
    requires Distinct(s)
    ensures Distinct(Except(s, drop))
  {
    if s != [] {
      ExceptDistinct(s[1..], drop);
      assert s[0] !in s[1..];
    }
  }

  lemma {:induction false} OnlyDistinct(s: seq<Name>, keep: set<Name>)
    requires Distinct(s)
    ensures Distinct(Only(s, keep))
  {
    if s != [] {
      OnlyDistinct(s[1..], keep);
      assert s[0] !in s[1..];
    }
  }

  lemma {:induction false} ExceptAppend(s: seq<Name>, x: Name, drop: set<Name>)
    ensures Except(s + [x], drop) == Except(s, drop) + (if x in drop then [] else [x])
  {
    if s != [] {
      assert (s + [x])[1..] == s[1..] + [x];
      ExceptAppend(s[1..], x, drop);
    }
  }

  lemma {:induction false} ExceptConcat(s: seq<Name>, t: seq<Name>, drop: set<Name>)
    ensures Except(s + t, drop) == Except(s, drop) + Except(t, drop)
  {
    if s == [] {
      assert s + t == t;
    } else {
      assert (s + t)[1..] == s[1..] + t;
      ExceptConcat(s[1..], t, drop);
    }
  }

  lemma {:induction false} ExceptNothing(s: seq<Name>, drop: set<Name>)
    requires forall x :: x in s ==> x !in drop
    ensures Except(s, drop) == s
  {
    if s != [] {
      ExceptNothing(s[1..], drop);
    }
  }

  lemma {:induction false} OnlyIsExcept(s: seq<Name>, keep: set<Name>, drop: set<Name>)
    requires forall x :: x in s ==> (x in keep <==> x !in drop)
    ensures Only(s, keep) == Except(s, drop)
  {
    if s != [] {
      OnlyIsExcept(s[1..], keep, drop);
    }
  }

  /** Removing the one occurrence at an index. */
  lemma {:induction false} ExceptAt(s: seq<Name>, i: nat)
    requires Distinct(s) && i < |s|
    ensures Except(s, {s[i]}) == s[..i] + s[i + 1..]
  {
    if i == 0 {
      ExceptNothing(s[1..], {s[0]});
    } else {
      ExceptAt(s[1..], i - 1);
    }
  }

  lemma SyncDistinct(files: seq<Name>, listing: seq<Name>, present: set<Name>)
    requires Distinct(files) && Distinct(listing)
    ensures Distinct(Sync(files, listing, present))
  {
    var a, b := Only(files, present + Elements(listing)), Except(listing, Elements(files));
    OnlyDistinct(files, present + Elements(listing));
    ExceptDistinct(listing, Elements(files));
    hide Only, Except;
    assert forall i, j :: 0 <= i < |a| && 0 <= j < |b| ==> a[i] in files && b[j] !in files;
  }

  /** When what exists is what is listed, the list afterwards holds the listed files and no others. */
  lemma SyncElements(files: seq<Name>, listing: seq<Name>)
    ensures Elements(Sync(files, listing, Elements(listing))) == Elements(listing)
  {
    hide Only, Except;
  }

  /** One entry comes before another. */
  ghost predicate Before(s: seq<Name>, x: Name, y: Name) {
    exists a, b :: 0 <= a < b < |s| && s[a] == x && s[b] == y
  }

  lemma BeforeInTail(s: seq<Name>, x: Name, y: Name)
    requires s != [] && Before(s[1..], x, y)
    ensures Before(s, x, y)
  {
    var a, b :| 0 <= a < b < |s[1..]| && s[1..][a] == x && s[1..][b] == y;
    assert s[a + 1] == x && s[b + 1] == y;
  }

  lemma FirstIsBefore(s: seq<Name>, y: Name)
    requires s != [] && y in s[1..]
    ensures Before(s, s[0], y)
  {
    var b :| 0 <= b < |s[1..]| && s[1..][b] == y;
    assert s[b + 1] == y;
  }

  lemma ExceptFirst(s: seq<Name>, drop: set<Name>)
    requires s != []
    ensures s[0] in drop ==> Except(s, drop) == Except(s[1..], drop)
    ensures s[0] !in drop ==> Except(s, drop) == [s[0]] + Except(s[1..], drop)
  {
  }

  /** What is left over is in the same order. */
  lemma {:induction false} ExceptOrder(s: seq<Name>, drop: set<Name>, i: nat, j: nat)
    requires i < j < |Except(s, drop)|
    ensures Before(s, Except(s, drop)[i], Except(s, drop)[j])
  {
    assert s != [];
    ExceptFirst(s, drop);
    hide Except, Before;
    var rest := Except(s[1..], drop);
    if s[0] in drop {
      ExceptOrder(s[1..], drop, i, j);
      BeforeInTail(s, rest[i], rest[j]);
    } else {
      var all := [s[0]] + rest;
      assert all[j] == rest[j - 1];
      if i == 0 {
        assert rest[j - 1] in rest;
        FirstIsBefore(s, rest[j - 1]);
      } else {
        ExceptOrder(s[1..], drop, i - 1, j - 1);
        assert all[i] == rest[i - 1];
        BeforeInTail(s, rest[i - 1], rest[j - 1]);
      }
    }
  }

  lemma OnlyOrder(s: seq<Name>, keep: set<Name>, i: nat, j: nat)
    requires i < j < |Only(s, keep)|
    ensures Before(s, Only(s, keep)[i], Only(s, keep)[j])
  {
    var drop := set x | x in s && x !in keep;
    OnlyIsExcept(s, keep, drop);
    hide Only, Except, Before;
    ExceptOrder(s, drop, i, j);
  }

  /** The list afterwards holds the old entries that exist or are listed, and everything listed. */
  lemma SyncHolds(files: seq<Name>, listing: seq<Name>, present: set<Name>, x: Name)
    ensures x in Sync(files, listing, present) <==> x in listing || (x in files && x in present)
  {
    hide Only, Except;
  }

  lemma OldOrder(files: seq<Name>, keep: set<Name>, novel: seq<Name>, i: nat, j: nat)
    requires i < j < |Only(files, keep)|
    ensures var s := Only(files, keep) + novel; s[i] in files && s[j] in files && Before(files, s[i], s[j])
  {
    var a := Only(files, keep);
    assert a[i] in a && a[j] in a;
    hide Only, Before;
    OnlyOrder(files, keep, i, j);
  }

  lemma NewOrder(kept: seq<Name>, listing: seq<Name>, drop: set<Name>, i: nat, j: nat)
    requires i < j < |Except(listing, drop)|
    ensures var s := kept + Except(listing, drop);
      s[|kept| + j] !in drop && Before(listing, s[|kept| + i], s[|kept| + j])
  {
    var b := Except(listing, drop);
    assert b[j] in b;
    hide Except, Before;
    ExceptOrder(listing, drop, i, j);
  }

  lemma OldBeforeNew(files: seq<Name>, keep: set<Name>, listing: seq<Name>, drop: set<Name>, i: nat, j: nat)
    requires i < |Only(files, keep)| <= j < |Only(files, keep)| + |Except(listing, drop)|
    ensures var s := Only(files, keep) + Except(listing, drop); s[i] in files && s[j] !in drop
  {
    var a, b := Only(files, keep), Except(listing, drop);
    assert a[i] in a && b[j - |a|] in b;
    hide Only, Except;
  }

  /** Of two entries the earlier is the old one, or comes first among the old or among the listed ones. */
  lemma SyncOrder(files: seq<Name>, listing: seq<Name>, present: set<Name>, i: nat, j: nat)
    requires i < j < |Sync(files, listing, present)|
    ensures var x, y := Sync(files, listing, present)[i], Sync(files, listing, present)[j];
      if y in files then x in files && Before(files, x, y) else x in files || Before(listing, x, y)
  {
    var keep, drop := present + Elements(listing), Elements(files);
    var a, b := Only(files, keep), Except(listing, drop);
    hide Only, Except, Before;
    if j < |a| {
      OldOrder(files, keep, b, i, j);
    } else if i >= |a| {
      NewOrder(a, listing, drop, i - |a|, j - |a|);
    } else {
      OldBeforeNew(files, keep, listing, drop, i, j);
    }
  }

  lemma {:induction false} DistinctCount(s: seq<Name>, x: Name)
    requires Distinct(s)
    ensures multiset(s)[x] == if x in s then 1 else 0
  {
    if s != [] {
      assert s == [s[0]] + s[1..];
      assert s[0] !in s[1..];
      DistinctCount(s[1..], x);
    }
  }

  function History(files: seq<Name>, listings: seq<seq<Name>>): seq<Name>
    decreases |listings|
  {
    if listings == [] then files
    else History(Sync(files, listings[0], Elements(listings[0])), listings[1..])
  }

  lemma OneListing(files: seq<Name>, listing: seq<Name>)
    requires Distinct(files) && Distinct(listing)
    ensures var next := Sync(files, listing, Elements(listing));
      Distinct(next) && multiset(next) == multiset(listing)
  {
    SyncDistinct(files, listing, Elements(listing));
    SyncElements(files, listing);
    hide Sync, Distinct, Elements;
    SameElements(Sync(files, listing, Elements(listing)), listing);
  }

  lemma {:induction false} LastSync(files: seq<Name>, listings: seq<seq<Name>>) returns (names: seq<Name>)
    requires listings != [] && Distinct(files) && forall i :: 0 <= i < |listings| ==> Distinct(listings[i])
    ensures Distinct(names)
    ensures var last := listings[|listings| - 1]; History(files, listings) == Sync(names, last, Elements(last))
    decreases |listings|
  {
    if |listings| == 1 {
      names := files;
    } else {
      SyncDistinct(files, listings[0], Elements(listings[0]));
      hide Sync, Distinct, Elements;
      names := LastSync(Sync(files, listings[0], Elements(listings[0])), listings[1..]);
    }
  }

  /** After any number of changes of the directory the list is a permutation of the last listing. */
  lemma HistoryIsLastListing(files: seq<Name>, listings: seq<seq<Name>>)
    requires listings != [] && Distinct(files) && forall i :: 0 <= i < |listings| ==> Distinct(listings[i])
    ensures Distinct(History(files, listings))
    ensures multiset(History(files, listings)) == multiset(listings[|listings| - 1])
  {
    hide Sync, Distinct, Elements, History;
    var names := LastSync(files, listings);
    OneListing(names, listings[|listings| - 1]);
  }

  lemma SameElements(a: seq<Name>, b: seq<Name>)
    requires Distinct(a) && Distinct(b) && Elements(a) == Elements(b)
    ensures multiset(a) == multiset(b)
  {
    forall x
      ensures multiset(a)[x] == multiset(b)[x]
    {
      DistinctCount(a, x);
      DistinctCount(b, x);
      assert x in a <==> x in Elements(a);
      assert x in b <==> x in Elements(b);
    }
  }

  /** A second report of the same listing changes nothing. */
  lemma SyncSettles(files: seq<Name>, listing: seq<Name>, present: set<Name>)
    requires Elements(listing) <= present
    ensures var once := Sync(files, listing, present); Sync(once, listing, present) == once
  {
    var once := Sync(files, listing, present);
    var keep := present + Elements(listing);
    OnlyIsExcept(once, keep, {});
    ExceptNothing(once, {});
    NothingNew(listing, Elements(once));
    hide Only, Except;
    assert once + [] == once;
  }

  lemma {:induction false} NothingNew(listing: seq<Name>, known: set<Name>)
    requires forall x :: x in listing ==> x in known
    ensures Except(listing, known) == []
  {
    if listing != [] {
      NothingNew(listing[1..], known);
    }
  }

  // ----- what views are told

  /** The row signals of the item model. */
  datatype RowSignal = Inserted(row: nat) | Removed(row: nat) | Changed(row: nat)

  /** Where a view has to look for a row after a signal. */
  function FollowOne(row: Option<nat>, signal: RowSignal): Option<nat> {
    match (row, signal)
    case (None, _) => None
    case (Some(r), Inserted(i)) => Some(if r >= i then r + 1 else r)
    case (Some(r), Removed(i)) => if r == i then None else Some(if r > i then r - 1 else r)
    case (Some(r), Changed(_)) => Some(r)
  }

  function Follow(row: nat, signals: seq<RowSignal>): Option<nat> {
    if signals == [] then Some(row)
    else FollowOne(Follow(row, signals[..|signals| - 1]), signals[|signals| - 1])
  }

  lemma {:induction false} FollowBoth(row: nat, first: seq<RowSignal>, second: seq<RowSignal>)
    ensures Follow(row, first + second)
         == match Follow(row, first) case None => None case Some(r) => Follow(r, second)
    decreases |second|
  {
    if second == [] {
      assert first + second == first;
    } else {
      var n := |second| - 1;
      assert (first + second)[..|first + second| - 1] == first + second[..n];
      FollowBoth(row, first, second[..n]);
    }
  }

  lemma FollowSingle(row: nat, signal: RowSignal)
    ensures Follow(row, [signal]) == FollowOne(Some(row), signal)
  {
    assert [signal][..0] == [];
  }

  /** A view that follows the signals finds every old entry where it now is, and none that is gone. */
  predicate Tracks(before: seq<Name>, signals: seq<RowSignal>, now: seq<Name>) {
    forall i :: 0 <= i < |before| ==> Found(before[i], Follow(i, signals), now)
  }

  predicate Found(name: Name, row: Option<nat>, now: seq<Name>) {
    match row
    case Some(j) => j < |now| && now[j] == name
    case None => name !in now
  }

  lemma TracksNothing(names: seq<Name>)
    ensures Tracks(names, [], names)
  {
  }

  lemma TracksInsert(names: seq<Name>, name: Name)
    requires name !in names
    ensures Tracks(names, [Inserted(|names|)], names + [name])
  {
    forall i | 0 <= i < |names|
      ensures Found(names[i], Follow(i, [Inserted(|names|)]), names + [name])
    {
      FollowSingle(i, Inserted(|names|));
    }
  }

  lemma TracksChange(names: seq<Name>, row: nat)
    ensures Tracks(names, [Changed(row)], names)
  {
    forall i | 0 <= i < |names|
      ensures Found(names[i], Follow(i, [Changed(row)]), names)
    {
      FollowSingle(i, Changed(row));
    }
  }

  lemma TracksRemove(names: seq<Name>, row: nat)
    requires Distinct(names) && row < |names|
    ensures Tracks(names, [Removed(row)], names[..row] + names[row + 1..])
  {
    forall i | 0 <= i < |names|
      ensures Found(names[i], Follow(i, [Removed(row)]), names[..row] + names[row + 1..])
    {
      FollowSingle(i, Removed(row));
    }
  }

  /** Signals of one step and of the next, when no name that is gone comes back. */
  lemma TracksThen(a: seq<Name>, first: seq<RowSignal>, b: seq<Name>, second: seq<RowSignal>, c: seq<Name>)
    requires Tracks(a, first, b) && Tracks(b, second, c)
    requires forall x :: x in a && x in c ==> x in b
    ensures Tracks(a, first + second, c)
  {
    forall i | 0 <= i < |a|
      ensures Found(a[i], Follow(i, first + second), c)
    {
      FollowBoth(i, first, second);
      assert Found(a[i], Follow(i, first), b);
      hide Follow;
    }
  }

  // ----- the rows a view has after the signals

  /** A signal about rows that exist; a new row may also come after the last one. */
  predicate InRange(count: nat, signal: RowSignal) {
    match signal
    case Inserted(i) => i <= count
    case Removed(i) => i < count
    case Changed(i) => i < count
  }

  /** A view keeps an entry for each row; of a new row it does not know the entry yet. */
  function Applied(rows: seq<Option<Name>>, signal: RowSignal): seq<Option<Name>>
    requires InRange(|rows|, signal)
  {
    match signal
    case Inserted(i) => rows[..i] + [None] + rows[i..]
    case Removed(i) => rows[..i] + rows[i + 1..]
    case Changed(i) => rows
  }

  predicate Plays(rows: seq<Option<Name>>, signals: seq<RowSignal>)
    decreases |signals|
  {
    signals == [] || (InRange(|rows|, signals[0]) && Plays(Applied(rows, signals[0]), signals[1..]))
  }

  function Replayed(rows: seq<Option<Name>>, signals: seq<RowSignal>): seq<Option<Name>>
    requires Plays(rows, signals)
    decreases |signals|
  {
    if signals == [] then rows else Replayed(Applied(rows, signals[0]), signals[1..])
  }

  lemma {:induction false} PlaysBoth(rows: seq<Option<Name>>, first: seq<RowSignal>, second: seq<RowSignal>)
    requires Plays(rows, first) && Plays(Replayed(rows, first), second)
    ensures Plays(rows, first + second)
    ensures Replayed(rows, first + second) == Replayed(Replayed(rows, first), second)
    decreases |first|
  {
    if first == [] {
      assert first + second == second;
    } else {
      assert (first + second)[1..] == first[1..] + second;
      PlaysBoth(Applied(rows, first[0]), first[1..], second);
    }
  }

  lemma PlaysOne(rows: seq<Option<Name>>, signal: RowSignal)
    requires InRange(|rows|, signal)
    ensures Plays(rows, [signal]) && Replayed(rows, [signal]) == Applied(rows, signal)
  {
    assert [signal][1..] == [];
  }

  /** The rows of a list of which the view knows these entries. */
  function Known(names: seq<Name>, known: set<Name>): seq<Option<Name>> {
    seq(|names|, i requires 0 <= i < |names| => if names[i] in known then Some(names[i]) else None)
  }

  /** A view that applies the signals to its rows, all of which are in range, has the rows of the new list:
      as many, the known entries where they now are, and unknown ones exactly where it has not looked. */
  predicate Announces(before: seq<Name>, signals: seq<RowSignal>, now: seq<Name>, known: set<Name>) {
    Plays(Known(before, known), signals) && Replayed(Known(before, known), signals) == Known(now, known)
  }

  lemma AnnouncesNothing(names: seq<Name>, known: set<Name>)
    ensures Announces(names, [], names, known)
  {
  }

  lemma AnnouncesInsert(names: seq<Name>, name: Name, known: set<Name>)
    requires name !in known
    ensures Announces(names, [Inserted(|names|)], names + [name], known)
  {
    var rows := Known(names, known);
    PlaysOne(rows, Inserted(|names|));
    assert rows[..|names|] + [None] + rows[|names|..] == Known(names + [name], known);
  }

  lemma AnnouncesRemove(names: seq<Name>, row: nat, known: set<Name>)
    requires row < |names|
    ensures Announces(names, [Removed(row)], names[..row] + names[row + 1..], known)
  {
    var rows := Known(names, known);
    PlaysOne(rows, Removed(row));
    assert rows[..row] + rows[row + 1..] == Known(names[..row] + names[row + 1..], known);
  }

  lemma AnnouncesChange(names: seq<Name>, row: nat, known: set<Name>)
    requires row < |names|
    ensures Announces(names, [Changed(row)], names, known)
  {
    PlaysOne(Known(names, known), Changed(row));
  }

  lemma AnnouncesThen(a: seq<Name>, first: seq<RowSignal>, b: seq<Name>, second: seq<RowSignal>, c: seq<Name>,
                      known: set<Name>)
    requires Announces(a, first, b, known) && Announces(b, second, c, known)
    ensures Announces(a, first + second, c, known)
  {
    PlaysBoth(Known(a, known), first, second);
    hide Plays, Replayed, Known;
  }

  /** The same whatever the view knows. */
  ghost predicate AnnouncesToAll(before: seq<Name>, signals: seq<RowSignal>, now: seq<Name>) {
    forall known :: Announces(before, signals, now, known)
  }

  lemma ToAllMeans(before: seq<Name>, signals: seq<RowSignal>, now: seq<Name>, known: set<Name>)
    requires AnnouncesToAll(before, signals, now)
    ensures Announces(before, signals, now, known)
  {
  }

  lemma ToAllNothing(names: seq<Name>)
    ensures AnnouncesToAll(names, [], names)
  {
  }

  lemma ToAllRemove(names: seq<Name>, row: nat)
    requires row < |names|
    ensures AnnouncesToAll(names, [Removed(row)], names[..row] + names[row + 1..])
  {
    var now := names[..row] + names[row + 1..];
    forall known
      ensures Announces(names, [Removed(row)], now, known)
    {
      AnnouncesRemove(names, row, known);
    }
  }

  lemma ToAllChange(names: seq<Name>, row: nat)
    requires row < |names|
    ensures AnnouncesToAll(names, [Changed(row)], names)
  {
    forall known
      ensures Announces(names, [Changed(row)], names, known)
    {
      AnnouncesChange(names, row, known);
    }
  }

  lemma ToAllThen(a: seq<Name>, first: seq<RowSignal>, b: seq<Name>, second: seq<RowSignal>, c: seq<Name>)
    requires AnnouncesToAll(a, first, b) && AnnouncesToAll(b, second, c)
    ensures AnnouncesToAll(a, first + second, c)
  {
    hide Announces;
    forall known
      ensures Announces(a, first + second, c, known)
    {
      AnnouncesThen(a, first, b, second, c, known);
    }
  }

  // ----- the model and its watcher

  class Watcher {
    var files: seq<string>

    constructor ()
      ensures files == []
    {
      files := [];
    }

    method AddPath(path: string)
      modifies this
      ensures files == if path in old(files) then old(files) else old(files) + [path]
    {
      if path !in files { files := files + [path]; }
    }

    method RemovePath(path: string)
      modifies this
      ensures files == Except(old(files), {path})
    {
      files := Except(files, {path});
    }
  }

  class FsImageModel {
    const dir: string
    const watcher: Watcher
    var files: seq<Name>
    var signals: seq<RowSignal>

    function PathOf(name: Name): string {
      dir + "/" + name
    }

    /** No entry and no watched path occurs twice, and the watched paths are those of the entries. */
    ghost predicate InStep(names: seq<Name>, watched: seq<string>) {
      && Distinct(names) && Distinct(watched)
      && (forall n :: n in names ==> PathOf(n) in watched)
      && (forall p :: p in watched ==> exists n :: n in names && PathOf(n) == p)
    }

    ghost predicate Valid()
      reads this, watcher
    {
      InStep(files, watcher.files)
    }

    lemma PathsDiffer(a: Name, b: Name)
      requires PathOf(a) == PathOf(b)
      ensures a == b
    {
      assert PathOf(a)[|dir| + 1..] == a;
      assert PathOf(b)[|dir| + 1..] == b;
    }

    constructor (dir: string, listing: seq<Name>)
      requires Distinct(listing)
      ensures Valid() && fresh(watcher) && files == listing && signals == [] && this.dir == dir
    {
      this.dir := dir;
      watcher := new Watcher();
      files, signals := [], [];
      new;
      EmptyInStep();
      hide InStep, Distinct;
      var i := 0;
      while i < |listing|
        invariant 0 <= i <= |listing| && files == listing[..i] && signals == [] && Valid() && fresh(watcher)
      {
        NextIsNew(listing, i);
        Watched(files, watcher.files, listing[i]);
        files := files + [listing[i]];
        watcher.AddPath(PathOf(listing[i]));
        i := i + 1;
      }
    }

    lemma EmptyInStep()
      ensures InStep([], [])
    {
    }

    /** One more entry, one more path. */
    lemma Watched(names: seq<Name>, watched: seq<string>, name: Name)
      requires InStep(names, watched) && name !in names
      ensures PathOf(name) !in watched
      ensures InStep(names + [name], watched + [PathOf(name)])
    {
      if PathOf(name) in watched {
        var n :| n in names && PathOf(n) == PathOf(name);
        PathsDiffer(n, name);
      }
      forall p | p in watched + [PathOf(name)]
        ensures exists n :: n in names + [name] && PathOf(n) == p
      {
        if p in watched {
          var n :| n in names && PathOf(n) == p;
          assert n in names + [name];
        } else {
          assert name in names + [name];
        }
      }
    }

    /** One entry less, one path less. */
    lemma Unwatched(names: seq<Name>, watched: seq<string>, name: Name)
      requires InStep(names, watched) && name in names
      ensures InStep(Except(names, {name}), Except(watched, {PathOf(name)}))
    {
      var ns, ps := Except(names, {name}), Except(watched, {PathOf(name)});
      ExceptDistinct(names, {name});
      ExceptDistinct(watched, {PathOf(name)});
      forall n | n in ns
        ensures PathOf(n) in ps
      {
        if PathOf(n) == PathOf(name) {
          PathsDiffer(n, name);
        }
      }
      forall p | p in ps
        ensures exists n :: n in ns && PathOf(n) == p
      {
        var n :| n in names && PathOf(n) == p;
        assert n in ns;
      }
    }

    /** The first row whose path is the given one. */
    method FindRow(path: string) returns (i: nat)
      ensures i <= |files|
      ensures forall j :: 0 <= j < i ==> PathOf(files[j]) != path
      ensures i < |files| ==> PathOf(files[i]) == path
    {
      i := 0;
      while i < |files|
        invariant 0 <= i <= |files|
        invariant forall j :: 0 <= j < i ==> PathOf(files[j]) != path
      {
        if PathOf(files[i]) == path { return; }
        i := i + 1;
      }
    }

    /** The entries a report about `path` takes out: those with that path that are gone. */
    ghost function Gone(names: seq<Name>, path: string, present: set<Name>): set<Name> {
      set n | n in names && PathOf(n) == path && n !in present
    }

    lemma GoneAtRow(names: seq<Name>, i: nat, present: set<Name>)
      requires Distinct(names) && i < |names|
      ensures Except(names, Gone(names, PathOf(names[i]), present))
           == if names[i] in present then names else names[..i] + names[i + 1..]
    {
      var gone := Gone(names, PathOf(names[i]), present);
      forall n | n in gone
        ensures n == names[i]
      {
        PathsDiffer(n, names[i]);
      }
      if names[i] in present {
        ExceptNothing(names, gone);
      } else {
        assert gone == {names[i]};
        ExceptAt(names, i);
      }
    }

    /** Takes out a row together with its path. */
    method RemoveRow(i: nat)
      requires Valid() && i < |files|
      modifies this, watcher
      ensures Valid() && files == old(files[..i] + files[i + 1..]) && signals == old(signals) + [Removed(i)]
    {
      ExceptAt(files, i);
      Unwatched(files, watcher.files, files[i]);
      hide InStep, Except;
      watcher.RemovePath(PathOf(files[i]));
      files := files[..i] + files[i + 1..];
      signals := signals + [Removed(i)];
    }

    lemma RowOf(names: seq<Name>, path: string, i: nat)
      requires Distinct(names) && i <= |names| && (i < |names| ==> PathOf(names[i]) == path)
      requires forall j :: 0 <= j < i ==> PathOf(names[j]) != path
      ensures forall j :: 0 <= j < |names| && PathOf(names[j]) == path ==> j == i
    {
      forall j | 0 <= j < |names| && PathOf(names[j]) == path
        ensures j == i
      {
        PathsDiffer(names[i], names[j]);
      }
    }

    lemma NothingGone(names: seq<Name>, path: string, present: set<Name>)
      requires forall j :: 0 <= j < |names| ==> PathOf(names[j]) != path
      ensures Except(names, Gone(names, path, present)) == names
    {
      ExceptNothing(names, Gone(names, path, present));
    }

    /** A watched file changed: its entry is reported, or taken out when the file is gone. */
    method FileChanged(path: string, present: set<Name>) returns (ghost emitted: seq<RowSignal>)
      requires Valid()
      modifies this, watcher
      ensures Valid()
      ensures files == Except(old(files), Gone(old(files), path, present))
      ensures signals == old(signals) + emitted && Tracks(old(files), emitted, files)
      ensures AnnouncesToAll(old(files), emitted, files)
      ensures (forall i :: 0 <= i < |old(files)| ==> PathOf(old(files)[i]) != path) ==> emitted == []
      ensures forall i :: 0 <= i < |old(files)| && PathOf(old(files)[i]) == path ==>
        emitted == [if old(files)[i] in present then Changed(i) else Removed(i)]
    {
      emitted := [];
      var i := FindRow(path);
      RowOf(files, path, i);
      hide Tracks, Except, AnnouncesToAll, Distinct, PathOf;
      if i == |files| {
        NothingGone(files, path, present);
        TracksNothing(files);
        ToAllNothing(files);
        return;
      }
      hide Gone;
      GoneAtRow(files, i, present);
      TracksChange(files, i);
      TracksRemove(files, i);
      ToAllChange(files, i);
      ToAllRemove(files, i);
      if files[i] in present {
        emitted := [Changed(i)];
        signals := signals + [Changed(i)];
      } else {
        emitted := [Removed(i)];
        RemoveRow(i);
      }
    }

    /** The entries whose paths are among those to be checked and that are gone. */
    ghost function AllGone(names: seq<Name>, paths: seq<string>, present: set<Name>): set<Name> {
      set n | n in names && PathOf(n) in paths && n !in present
    }

    lemma OneMoreGone(names: seq<Name>, paths: seq<string>, path: string, present: set<Name>)
      ensures var left := Except(names, AllGone(names, paths, present));
        Except(left, Gone(left, path, present)) == Except(names, AllGone(names, paths + [path], present))
    {
      var dead, more := AllGone(names, paths, present), AllGone(names, paths + [path], present);
      var left := Except(names, dead);
      var gone := Gone(left, path, present);
      assert more == dead + gone;
      ExceptUnion(names, dead, gone);
    }

    lemma ExceptUnion(names: seq<Name>, a: set<Name>, b: set<Name>)
      ensures Except(names, a + b) == Except(Except(names, a), b)
    {
      if names != [] {
        ExceptUnion(names[1..], a, b);
        ExceptConcat(if names[0] in a then [] else [names[0]], Except(names[1..], a), b);
      }
    }

    /** Reports about a list of paths, one after the other. */
    method FilesChanged(paths: seq<string>, present: set<Name>) returns (ghost emitted: seq<RowSignal>)
      requires Valid()
      modifies this, watcher
      ensures Valid()
      ensures files == Except(old(files), AllGone(old(files), paths, present))
      ensures signals == old(signals) + emitted && Tracks(old(files), emitted, files)
      ensures AnnouncesToAll(old(files), emitted, files)
    {
      emitted := [];
      var k := 0;
      TracksNothing(files);
      ToAllNothing(files);
      hide InStep, Tracks, AnnouncesToAll, Except, AllGone, Gone, Distinct, PathOf;
      NoneGone(files, present);
      while k < |paths|
        invariant 0 <= k <= |paths| && Valid()
        invariant files == Except(old(files), AllGone(old(files), paths[..k], present))
        invariant signals == old(signals) + emitted && Tracks(old(files), emitted, files)
        invariant AnnouncesToAll(old(files), emitted, files)
      {
        ghost var before := files;
        OneMoreGone(old(files), paths[..k], paths[k], present);
        ghost var more := FileChanged(paths[k], present);
        TracksThen(old(files), emitted, before, more, files);
        ToAllThen(old(files), emitted, before, more, files);
        emitted := emitted + more;
        assert paths[..k] + [paths[k]] == paths[..k + 1];
        k := k + 1;
      }
      assert paths[..k] == paths;
    }

    lemma NoneGone(names: seq<Name>, present: set<Name>)
      ensures Except(names, AllGone(names, [], present)) == names
    {
      ExceptNothing(names, AllGone(names, [], present));
    }

    /** The loop over a new listing: known paths are struck from `org`, others become new rows. */
    method AddNew(listing: seq<Name>, watched: seq<string>) returns (org: seq<string>, ghost emitted: seq<RowSignal>)
      requires Valid() && Distinct(listing) && watched == watcher.files
      modifies this, watcher
      ensures Valid()
      ensures files == old(files) + Except(listing, Elements(old(files)))
      ensures org == Except(watched, PathsOf(listing))
      ensures signals == old(signals) + emitted && Tracks(old(files), emitted, files)
      ensures Announces(old(files), emitted, files, Elements(old(files)))
    {
      hide InStep, Tracks, Announces, Except, Distinct, PathsOf, PathOf;
      org, emitted := watched, [];
      var i := 0;
      TracksNothing(files);
      AnnouncesNothing(files, Elements(files));
      assert files + [] == files;
      NothingListed(files, watched, listing);
      while i < |listing|
        invariant 0 <= i <= |listing| && Valid()
        invariant files == old(files) + Except(listing[..i], Elements(old(files)))
        invariant org == Except(watched, PathsOf(listing[..i]))
        invariant signals == old(signals) + emitted && Tracks(old(files), emitted, files)
        invariant Announces(old(files), emitted, files, Elements(old(files)))
      {
        var path := PathOf(listing[i]);
        OneMoreListed(old(files), watched, listing, i);
        if path in org {
          org := Except(org, {path});
        } else {
          ghost var before := files;
          TracksInsert(files, listing[i]);
          TracksThen(old(files), emitted, before, [Inserted(|files|)], files + [listing[i]]);
          assert listing[i] !in Elements(old(files));
          AnnouncesInsert(files, listing[i], Elements(old(files)));
          AnnouncesThen(old(files), emitted, before, [Inserted(|files|)], files + [listing[i]], Elements(old(files)));
          Watched(files, watcher.files, listing[i]);
          signals := signals + [Inserted(|files|)];
          emitted := emitted + [Inserted(|files|)];
          files := files + [listing[i]];
          watcher.AddPath(path);
        }
        i := i + 1;
      }
      assert listing[..i] == listing;
    }

    ghost function PathsOf(names: seq<Name>): set<string> {
      set n | n in names :: PathOf(n)
    }

    lemma NothingListed(names: seq<Name>, watched: seq<string>, listing: seq<Name>)
      ensures Except(listing[..0], Elements(names)) == []
      ensures Except(watched, PathsOf(listing[..0])) == watched
    {
      ExceptNothing(watched, PathsOf(listing[..0]));
    }

    /** The next listed file is known exactly when its path has not been struck from the watched ones. */
    lemma ListedIsKnown(names: seq<Name>, watched: seq<string>, listing: seq<Name>, i: nat)
      requires InStep(names, watched) && Distinct(listing) && i < |listing|
      ensures PathOf(listing[i]) in Except(watched, PathsOf(listing[..i])) <==> listing[i] in names
      ensures PathOf(listing[i]) in watched <==> listing[i] in names
    {
      var path := PathOf(listing[i]);
      if path in watched {
        var n :| n in names && PathOf(n) == path;
        PathsDiffer(n, listing[i]);
      }
      if path in PathsOf(listing[..i]) {
        var n :| n in listing[..i] && PathOf(n) == path;
        PathsDiffer(n, listing[i]);
      }
    }

    lemma OneMoreListed(names: seq<Name>, watched: seq<string>, listing: seq<Name>, i: nat)
      requires InStep(names, watched) && Distinct(listing) && i < |listing|
      ensures var x, org := listing[i], Except(watched, PathsOf(listing[..i]));
        && (PathOf(x) in org <==> x in names)
        && Except(org, {PathOf(x)}) == Except(watched, PathsOf(listing[..i + 1]))
        && (x !in names ==> org == Except(org, {PathOf(x)}))
        && Except(listing[..i + 1], Elements(names))
           == Except(listing[..i], Elements(names)) + (if x in names then [] else [x])
        && (x !in names ==> x !in names + Except(listing[..i], Elements(names)))
    {
      var x, org := listing[i], Except(watched, PathsOf(listing[..i]));
      ListedIsKnown(names, watched, listing, i);
      assert listing[..i + 1] == listing[..i] + [x];
      assert PathsOf(listing[..i + 1]) == PathsOf(listing[..i]) + {PathOf(x)};
      ExceptUnion(watched, PathsOf(listing[..i]), {PathOf(x)});
      ExceptAppend(listing[..i], x, Elements(names));
      if x !in names {
        ExceptNothing(org, {PathOf(x)});
      }
    }

    /** Adding the new entries and dropping the gone ones is what Sync says. */
    lemma SyncReached(names: seq<Name>, watched: seq<string>, listing: seq<Name>, present: set<Name>)
      requires InStep(names, watched) && Distinct(listing)
      ensures var added, org := names + Except(listing, Elements(names)), Except(watched, PathsOf(listing));
        Except(added, AllGone(added, org, present)) == Sync(names, listing, present)
    {
      var novel, org := Except(listing, Elements(names)), Except(watched, PathsOf(listing));
      var gone := AllGone(names + novel, org, present);
      forall n | n in names
        ensures n in gone <==> n !in present + Elements(listing)
      {
        if PathOf(n) in PathsOf(listing) {
          var o :| o in listing && PathOf(o) == PathOf(n);
          PathsDiffer(o, n);
        }
      }
      forall n | n in novel
        ensures n !in gone
      {
        assert PathOf(n) in PathsOf(listing);
      }
      OnlyIsExcept(names, present + Elements(listing), gone);
      ExceptNothing(novel, gone);
      ExceptConcat(names, novel, gone);
    }

    /** The directory changed: entries are compared with a new listing.  The list ends as Sync says, in
        step with the watcher; a view that follows the signals keeps every row it had and gets exactly the
        new entries as new rows. */
    method DirectoryChanged(listing: seq<Name>, present: set<Name>) returns (ghost emitted: seq<RowSignal>)
      requires Valid() && Distinct(listing)
      modifies this, watcher
      ensures Valid()
      ensures files == Sync(old(files), listing, present)
      ensures signals == old(signals) + emitted && Tracks(old(files), emitted, files)
      ensures Announces(old(files), emitted, files, Elements(old(files)))
    {
      hide InStep, Tracks, Announces, AnnouncesToAll, Except, Sync, AllGone, PathsOf, Distinct, Elements;
      SyncReached(files, watcher.files, listing, present);
      var org;
      ghost var first;
      org, first := AddNew(listing, watcher.files);
      ghost var added := files;
      ghost var second := FilesChanged(org, present);
      TracksThen(old(files), first, added, second, files);
      ToAllMeans(added, second, files, Elements(old(files)));
      AnnouncesThen(old(files), first, added, second, files, Elements(old(files)));
      emitted := first + second;
    }
  }
}
