/**
 The cache that answers "this ._ file does not exist" without asking the disk (src/localfs_macos.rs).

 Listing a directory puts the directory and then each of its "._" files into one LRU cache. The answer
 "does not exist" is given when the directory's own entry is there and current but the file's is not, so
 everything rests on a directory leaving the cache no later than any of its files.

 The cache key of a directory is its path with "." pushed, which as a path equals the directory's own
 path. A directory's modification time is taken to determine its contents.
 */
module DuCaches {
  import opened Results
  import opened DavPaths
  import opened FsModel

  const DU_CACHE_ENTRIES: nat := 4096
  const DU_CACHE_MAX_AGE: int := 60

  /** Times are in milliseconds. */
  datatype CacheEntry = CacheEntry(time: int, dirModtime: int, dirId: nat)

  /** Least recently used first. */
  type Lru = seq<(Path, CacheEntry)>

  /** What is in a directory whose modification time is this. */
  type Contents = (Path, int) -> set<Bytes>

  predicate DotUnder(name: Bytes) {
    |name| >= 2 && name[0] == DOT && name[1] == 95
  }

  /** The last name of the path does not start with "._". */
  predicate PlainPath(p: Path) {
    p == [] || !DotUnder(p[|p| - 1])
  }

  ghost predicate IsThere(contents: Contents, p: Path, dirModtime: int) {
    p != [] && FileName(p) in contents(Init(p), dirModtime)
  }

  ghost function DotNames(contents: Contents, dir: Path, dirModtime: int): set<Bytes> {
    set n | n in contents(dir, dirModtime) && DotUnder(n)
  }

  predicate Under(p: Path, dir: Path) {
    p != [] && Init(p) == dir
  }

  // ---------------------------------------------------------------------------------------------
  // The LRU map

  /** The position of a key, or the length if it is not there. */
  function Find(lru: Lru, key: Path): (i: nat)
    ensures i <= |lru|
    ensures i < |lru| ==> lru[i].0 == key
    ensures forall j :: 0 <= j < i ==> lru[j].0 != key
  {
    if lru == [] then 0
    else if lru[0].0 == key then 0
    else 1 + Find(lru[1..], key)
  }

  function Peek(lru: Lru, key: Path): Option<CacheEntry> {
    var i := Find(lru, key);
    if i < |lru| then Some(lru[i].1) else None
  }

  function DropAt(lru: Lru, x: nat): Lru {
    if x < |lru| then lru[..x] + lru[x + 1..] else lru
  }

  function Pop(lru: Lru, key: Path): Lru {
    DropAt(lru, Find(lru, key))
  }

  function RoomFor(lru: Lru, key: Path): Lru {
    if Find(lru, key) < |lru| then Pop(lru, key) else if |lru| >= DU_CACHE_ENTRIES then lru[1..] else lru
  }

  /** `put`: replace and make most recent; a new key pushes out the least recent one when the cache is full. */
  function Put(lru: Lru, key: Path, e: CacheEntry): Lru {
    RoomFor(lru, key) + [(key, e)]
  }

  // ---------------------------------------------------------------------------------------------
  // The operations on the map

  /** `finish`, with the "._" names of the directory in some order. */
  function Listed(lru: Lru, dir: Path, names: seq<Bytes>, e: CacheEntry): Lru {
    if names == [] then Put(lru, dir, e)
    else Put(Listed(lru, dir, names[..|names| - 1], e), dir + [names[|names| - 1]], e)
  }

  lemma ListedNext(lru: Lru, dir: Path, names: seq<Bytes>, e: CacheEntry, n: nat)
    requires n < |names|
    ensures Listed(lru, dir, names[..n + 1], e) == Put(Listed(lru, dir, names[..n], e), dir + [names[n]], e)
  {
    assert names[..n + 1][..n] == names[..n];
  }

  /** `negative`, when the directory's modification time is `modtime`, if it has one. */
  function Looked(lru: Lru, p: Path, modtime: Option<int>): (bool, Lru) {
    if p == [] || Peek(lru, Init(p)) == None then (false, lru)
    else
      var dir := Peek(lru, Init(p)).value;
      if modtime != Some(dir.dirModtime) then (false, Pop(lru, Init(p)))
      else match Peek(lru, p)
        case Some(file) => (file.dirId != dir.dirId, lru)
        case None => (true, lru)
  }

  predicate TooOld(e: CacheEntry, now: int) {
    now >= e.time && (now - e.time) / 1000 > DU_CACHE_MAX_AGE
  }

  /** The purge: drop the least recent entry as long as it is too old. */
  function Purged(lru: Lru, now: int): Lru {
    if lru != [] && TooOld(lru[0].1, now) then Purged(lru[1..], now) else lru
  }

  // ---------------------------------------------------------------------------------------------
  // The invariant

  /** The entry of the "._" file `name` of the directory at `i` comes after it, from the same listing. */
  ghost predicate FileAfter(lru: Lru, i: nat, name: Bytes)
    requires i < |lru|
  {
    exists j {:trigger lru[j]} :: i < j < |lru| && lru[j].0 == lru[i].0 + [name] && lru[j].1.dirId == lru[i].1.dirId
  }

  /** What each listing was of: the directory and its modification time, by id. */
  type Log = seq<(Path, int)>

  /** The entry is a directory's own and not that of a file; the key does not tell. */
  ghost predicate IsDirectory(item: (Path, CacheEntry), log: Log) {
    item.1.dirId < |log| && item.0 == log[item.1.dirId].0
  }

  /** The names whose entries the directory at `i` needs: all of them, or for a listing in progress those done. */
  ghost predicate Needs(contents: Contents, lru: Lru, log: Log, i: nat, current: nat, done: set<Bytes>, name: Bytes)
    requires i < |lru|
  {
    && IsDirectory(lru[i], log)
    && if lru[i].1.dirId == current then name in done
       else name in contents(lru[i].0, lru[i].1.dirModtime) && DotUnder(name)
  }

  ghost predicate Complete(contents: Contents, lru: Lru, log: Log, current: nat, done: set<Bytes>) {
    forall i, name {:trigger FileAfter(lru, i, name)} ::
      0 <= i < |lru| && Needs(contents, lru, log, i, current, done, name) ==> FileAfter(lru, i, name)
  }

  ghost predicate KeysDistinct(lru: Lru) {
    forall i, j :: 0 <= i < j < |lru| ==> lru[i].0 != lru[j].0
  }

  /** The entry comes from the listing its id names: that of the directory itself, or of a file found in it. */
  ghost predicate EntryTrue(contents: Contents, may: iset<Path>, item: (Path, CacheEntry), log: Log) {
    && item.1.dirId < |log| && log[item.1.dirId].0 in may && item.1.dirModtime == log[item.1.dirId].1
    && (IsDirectory(item, log) || (Under(item.0, log[item.1.dirId].0) && DotUnder(FileName(item.0))
                                   && IsThere(contents, item.0, item.1.dirModtime)))
  }

  ghost predicate Truthful(contents: Contents, may: iset<Path>, lru: Lru, log: Log) {
    forall i :: 0 <= i < |lru| ==> EntryTrue(contents, may, lru[i], log)
  }

  /** The cache after listings of directories in `may`, as `log` has them. */
  ghost predicate Sound(contents: Contents, may: iset<Path>, lru: Lru, log: Log) {
    && |lru| <= DU_CACHE_ENTRIES && KeysDistinct(lru)
    && Truthful(contents, may, lru, log) && Complete(contents, lru, log, |log|, {})
  }

  /**
   Where the directories in `may` are listed and looked into, doing so with this one cannot make the cache
   wrong about the directory itself: its name is plain, or the directory it is in is never listed, or it never
   is in a directory whose listing fits into the cache.
   */
  ghost predicate Harmless(contents: Contents, may: iset<Path>, dir: Path) {
    PlainPath(dir) || Init(dir) !in may ||
    forall t :: IsThere(contents, dir, t) ==> |DotNames(contents, Init(dir), t)| >= DU_CACHE_ENTRIES
  }

  /** Its directory's record as a file is never mistaken for a listing of it in which this file would have to be. */
  ghost predicate Clear(contents: Contents, p: Path) {
    PlainPath(Init(p)) || forall t :: IsThere(contents, p, t) ==> !IsThere(contents, Init(p), t)
  }

  // ---------------------------------------------------------------------------------------------
  // Dropping and adding entries

  lemma DroppedAt(lru: Lru, x: nat, i: nat)
    requires i < |lru| && i != x
    ensures var i' := if i < x then i else i - 1; i' < |DropAt(lru, x)| || x >= |lru|
    ensures x < |lru| ==> DropAt(lru, x)[if i < x then i else i - 1] == lru[i]
  {}

  lemma DropKeepsFileAfter(lru: Lru, x: nat, i: nat, name: Bytes)
    requires i < |lru| && x < |lru| && i != x && lru[x].0 != lru[i].0 + [name] && FileAfter(lru, i, name)
    ensures var i' := if i < x then i else i - 1; i' < |DropAt(lru, x)| && FileAfter(DropAt(lru, x), i', name)
  {
    var j :| i < j < |lru| && lru[j].0 == lru[i].0 + [name] && lru[j].1.dirId == lru[i].1.dirId;
    DroppedAt(lru, x, i);
    DroppedAt(lru, x, j);
    var i', j' := if i < x then i else i - 1, if j < x then j else j - 1;
    assert DropAt(lru, x)[j'] == lru[j];
  }

  /** Dropping the entry at `x` harms no directory if none needs it. */
  ghost predicate Unneeded(contents: Contents, lru: Lru, log: Log, x: nat, current: nat, done: set<Bytes>) {
    forall i, name {:trigger FileAfter(lru, i, name)} ::
      0 <= i < |lru| && i != x && x < |lru|
      && Needs(contents, lru, log, i, current, done, name) && FileAfter(lru, i, name) ==>
        lru[x].0 != lru[i].0 + [name]
  }

  lemma DropKeepsComplete(contents: Contents, lru: Lru, log: Log, x: nat, current: nat, done: set<Bytes>)
    requires x < |lru| && Complete(contents, lru, log, current, done) && Unneeded(contents, lru, log, x, current, done)
    ensures Complete(contents, DropAt(lru, x), log, current, done)
  {
    var lru' := DropAt(lru, x);
    forall i', name | 0 <= i' < |lru'| && Needs(contents, lru', log, i', current, done, name)
      ensures FileAfter(lru', i', name)
    {
      var i := if i' < x then i' else i' + 1;
      DroppedAt(lru, x, i);
      assert Needs(contents, lru, log, i, current, done, name);
      assert FileAfter(lru, i, name);
      DropKeepsFileAfter(lru, x, i, name);
    }
  }

  lemma DropKeepsRest(contents: Contents, may: iset<Path>, lru: Lru, x: nat, log: Log)
    requires KeysDistinct(lru) && Truthful(contents, may, lru, log)
    ensures KeysDistinct(DropAt(lru, x)) && Truthful(contents, may, DropAt(lru, x), log)
  {
    var lru' := DropAt(lru, x);
    if x < |lru| {
      assert forall i' :: 0 <= i' < |lru'| ==> lru'[i'] == lru[if i' < x then i' else i' + 1];
    }
  }

  /** The least recent entry is never a file that a directory still in the cache needs. */
  lemma OldestIsUnneeded(contents: Contents, lru: Lru, log: Log, current: nat, done: set<Bytes>)
    requires KeysDistinct(lru) && lru != []
    ensures Unneeded(contents, lru, log, 0, current, done) && DropAt(lru, 0) == lru[1..]
  {
    forall i, name | 0 <= i < |lru| && i != 0 && FileAfter(lru, i, name) ensures lru[0].0 != lru[i].0 + [name] {
      var j :| i < j < |lru| && lru[j].0 == lru[i].0 + [name] && lru[j].1.dirId == lru[i].1.dirId;
    }
  }

  /** While directory `dir` is being put in under `id`, nothing else stands for it. */
  ghost predicate Filling(lru: Lru, dir: Path, id: nat) {
    forall i :: 0 <= i < |lru| && lru[i].0 == dir ==> lru[i].1.dirId == id
  }

  lemma RoomInside(lru: Lru, key: Path)
    requires KeysDistinct(lru)
    ensures forall i :: 0 <= i < |RoomFor(lru, key)| ==> RoomFor(lru, key)[i].0 != key && RoomFor(lru, key)[i] in lru
    ensures |lru| <= DU_CACHE_ENTRIES ==> |RoomFor(lru, key)| < DU_CACHE_ENTRIES
  {
    var room, x := RoomFor(lru, key), Find(lru, key);
    if x < |lru| {
      forall i | 0 <= i < |room| ensures room[i].0 != key && room[i] in lru {
        assert room[i] == lru[if i < x then i else i + 1];
      }
    }
  }

  lemma RoomKeeps(contents: Contents, may: iset<Path>, lru: Lru, key: Path, log: Log, current: nat, done: set<Bytes>)
    requires KeysDistinct(lru) && Truthful(contents, may, lru, log) && Complete(contents, lru, log, current, done)
    requires Unneeded(contents, lru, log, Find(lru, key), current, done)
    ensures var room := RoomFor(lru, key);
            && KeysDistinct(room) && Truthful(contents, may, room, log) && Complete(contents, room, log, current, done)
  {
    var x := Find(lru, key);
    if x < |lru| {
      DropKeepsComplete(contents, lru, log, x, current, done);
      DropKeepsRest(contents, may, lru, x, log);
    } else if |lru| >= DU_CACHE_ENTRIES {
      OldestIsUnneeded(contents, lru, log, current, done);
      DropKeepsComplete(contents, lru, log, 0, current, done);
      DropKeepsRest(contents, may, lru, 0, log);
    }
  }

  lemma AppendKeepsFileAfter(lru: Lru, item: (Path, CacheEntry), i: nat, name: Bytes)
    requires i < |lru|
    ensures FileAfter(lru, i, name) ==> FileAfter(lru + [item], i, name)
    ensures item.0 == lru[i].0 + [name] && item.1.dirId == lru[i].1.dirId ==> FileAfter(lru + [item], i, name)
  {
    var after := lru + [item];
    assert after[|lru|] == item;
    if FileAfter(lru, i, name) {
      var j :| i < j < |lru| && lru[j].0 == lru[i].0 + [name] && lru[j].1.dirId == lru[i].1.dirId;
      assert after[j] == lru[j];
    }
  }

  lemma AppendKeepsRest(contents: Contents, may: iset<Path>, lru: Lru, item: (Path, CacheEntry), log: Log)
    requires KeysDistinct(lru) && Truthful(contents, may, lru, log) && EntryTrue(contents, may, item, log)
    requires forall i :: 0 <= i < |lru| ==> lru[i].0 != item.0
    ensures KeysDistinct(lru + [item]) && Truthful(contents, may, lru + [item], log)
  {}

  /** The log grows, and says the same of what was there. */
  lemma LogGrows(contents: Contents, may: iset<Path>, lru: Lru, log: Log, listing: (Path, int))
    requires Truthful(contents, may, lru, log) && Complete(contents, lru, log, |log|, {})
    ensures Truthful(contents, may, lru, log + [listing]) && Complete(contents, lru, log + [listing], |log|, {})
  {
    var log' := log + [listing];
    forall i | 0 <= i < |lru| ensures EntryTrue(contents, may, lru[i], log') {
      assert EntryTrue(contents, may, lru[i], log);
    }
    forall i, name | 0 <= i < |lru| && Needs(contents, lru, log', i, |log|, {}, name) ensures FileAfter(lru, i, name) {
      assert EntryTrue(contents, may, lru[i], log);
      assert Needs(contents, lru, log, i, |log|, {}, name);
    }
  }

  /** What comes from a set of keys is no more than the cache holds. */
  lemma {:induction false} KeysFit(lru: Lru, keys: set<Path>)
    requires forall k :: k in keys ==> exists i :: 0 <= i < |lru| && lru[i].0 == k
    ensures |keys| <= |lru|
  {
    if lru == [] {
      assert keys == {};
    } else {
      var rest := keys - {lru[0].0};
      forall k | k in rest ensures exists i :: 0 <= i < |lru| - 1 && lru[1..][i].0 == k {
        var i :| 0 <= i < |lru| && lru[i].0 == k;
        assert lru[1..][i - 1] == lru[i];
      }
      KeysFit(lru[1..], rest);
    }
  }

  lemma {:induction false} ChildrenCount(dir: Path, names: set<Bytes>)
    ensures |set n | n in names :: dir + [n]| == |names|
    decreases names
  {
    var keys := set n | n in names :: dir + [n];
    if n :| n in names {
      var fewer := names - {n};
      ChildrenCount(dir, fewer);
      forall k | k in fewer ensures dir + [k] != dir + [n] { SameChild(dir, k, dir, n); }
      assert keys == (set k | k in fewer :: dir + [k]) + {dir + [n]};
    } else {
      assert keys == {};
    }
  }

  /** A directory whose listing does not fit is never in the cache. */
  lemma CachedListingFits(contents: Contents, may: iset<Path>, lru: Lru, log: Log, i: nat)
    requires Sound(contents, may, lru, log) && i < |lru| && IsDirectory(lru[i], log)
    ensures |DotNames(contents, lru[i].0, lru[i].1.dirModtime)| < DU_CACHE_ENTRIES
  {
    var dir := lru[i].0;
    var names := DotNames(contents, dir, lru[i].1.dirModtime);
    var files := set n | n in names :: dir + [n];
    forall k | k in files + {dir} ensures exists j :: 0 <= j < |lru| && lru[j].0 == k {
      if n :| n in names && k == dir + [n] {
        assert Needs(contents, lru, log, i, |log|, {}, n);
        assert FileAfter(lru, i, n);
      }
    }
    ChildrenCount(dir, names);
    KeysFit(lru, files + {dir});
    assert dir !in files;
  }

  /** No directory in the cache needs a harmless one as its file. */
  lemma HarmlessIsUnneeded(contents: Contents, may: iset<Path>, lru: Lru, log: Log, dir: Path)
    requires Sound(contents, may, lru, log) && Harmless(contents, may, dir)
    ensures Unneeded(contents, lru, log, Find(lru, dir), |log|, {})
  {
    var x := Find(lru, dir);
    forall i, name | 0 <= i < |lru| && i != x && x < |lru|
                     && Needs(contents, lru, log, i, |log|, {}, name) && FileAfter(lru, i, name)
      ensures lru[x].0 != lru[i].0 + [name]
    {
      CachedListingFits(contents, may, lru, log, i);
      assert EntryTrue(contents, may, lru[i], log);
      var child := lru[i].0 + [name];
      assert Init(child) == lru[i].0 && FileName(child) == name;
      assert IsThere(contents, child, lru[i].1.dirModtime);
    }
  }

  /** What holds of the cache while a listing goes in, of which these names are done. */
  ghost predicate Partial(contents: Contents, may: iset<Path>, lru: Lru, log: Log, done: set<Bytes>) {
    && |log| > 0 && |lru| <= DU_CACHE_ENTRIES && KeysDistinct(lru) && Truthful(contents, may, lru, log)
    && Complete(contents, lru, log, |log| - 1, done) && Filling(lru, log[|log| - 1].0, |log| - 1)
  }

  /** Putting in the directory itself: nothing is needed for it yet. */
  lemma DirectoryPut(contents: Contents, may: iset<Path>, lru: Lru, log: Log, dir: Path, e: CacheEntry)
    requires Sound(contents, may, lru, log) && Harmless(contents, may, dir) && dir in may && e.dirId == |log|
    ensures Partial(contents, may, Put(lru, dir, e), log + [(dir, e.dirModtime)], {})
  {
    HarmlessIsUnneeded(contents, may, lru, log, dir);
    RoomKeeps(contents, may, lru, dir, log, |log|, {});
    RoomInside(lru, dir);
    DirectoryAppended(contents, may, RoomFor(lru, dir), log, dir, e);
  }

  lemma DirectoryAppended(contents: Contents, may: iset<Path>, room: Lru, log: Log, dir: Path, e: CacheEntry)
    requires |room| < DU_CACHE_ENTRIES && KeysDistinct(room) && Truthful(contents, may, room, log)
    requires Complete(contents, room, log, |log|, {}) && dir in may && e.dirId == |log|
    requires forall i :: 0 <= i < |room| ==> room[i].0 != dir
    ensures Partial(contents, may, room + [(dir, e)], log + [(dir, e.dirModtime)], {})
  {
    var lru', log' := room + [(dir, e)], log + [(dir, e.dirModtime)];
    LogGrows(contents, may, room, log, (dir, e.dirModtime));
    AppendKeepsRest(contents, may, room, (dir, e), log');
    forall i, name | 0 <= i < |lru'| && Needs(contents, lru', log', i, |log|, {}, name)
      ensures FileAfter(lru', i, name)
    {
      assert i < |room|;
      assert Needs(contents, room, log', i, |log|, {}, name);
      assert FileAfter(room, i, name);
      AppendKeepsFileAfter(room, (dir, e), i, name);
    }
  }

  /** Putting in one of its files. */
  lemma FilePut(contents: Contents, may: iset<Path>, lru: Lru, log: Log, name: Bytes, e: CacheEntry, done: set<Bytes>)
    requires Partial(contents, may, lru, log, done) && e.dirId == |log| - 1 && e.dirModtime == log[|log| - 1].1
    requires log[|log| - 1].0 in may
    requires name !in done && DotUnder(name) && name in contents(log[|log| - 1].0, e.dirModtime)
    ensures Partial(contents, may, Put(lru, log[|log| - 1].0 + [name], e), log, done + {name})
  {
    var id, dir := e.dirId, log[|log| - 1].0;
    var key := dir + [name];
    assert Init(key) == dir && FileName(key) == name;
    FileUnneeded(contents, lru, log, dir, name, id, done);
    RoomKeeps(contents, may, lru, key, log, id, done);
    RoomInside(lru, key);
    var room := RoomFor(lru, key);
    assert EntryTrue(contents, may, (key, e), log);
    AppendKeepsRest(contents, may, room, (key, e), log);
    FileCompletes(contents, room, log, name, e, done);
  }

  lemma FileCompletes(contents: Contents, room: Lru, log: Log, name: Bytes, e: CacheEntry, done: set<Bytes>)
    requires e.dirId < |log| && Complete(contents, room, log, e.dirId, done)
    ensures Complete(contents, room + [(log[e.dirId].0 + [name], e)], log, e.dirId, done + {name})
  {
    var dir := log[e.dirId].0;
    var item := (dir + [name], e);
    var lru' := room + [item];
    assert |item.0| == |dir| + 1 && !IsDirectory(item, log);
    forall i, n | 0 <= i < |lru'| && Needs(contents, lru', log, i, e.dirId, done + {name}, n)
      ensures FileAfter(lru', i, n)
    {
      assert i < |room| && lru'[i] == room[i];
      AppendKeepsFileAfter(room, item, i, n);
      if n != name || room[i].1.dirId != e.dirId {
        assert Needs(contents, room, log, i, e.dirId, done, n);
        assert FileAfter(room, i, n);
      }
    }
  }

  lemma SameChild(a: Path, x: Bytes, b: Path, y: Bytes)
    ensures a + [x] == b + [y] <==> a == b && x == y
  {
    assert Init(a + [x]) == a && FileName(a + [x]) == x;
    assert Init(b + [y]) == b && FileName(b + [y]) == y;
  }

  lemma FileUnneeded(contents: Contents, lru: Lru, log: Log, dir: Path, name: Bytes, id: nat, done: set<Bytes>)
    requires Filling(lru, dir, id) && name !in done
    ensures Unneeded(contents, lru, log, Find(lru, dir + [name]), id, done)
  {
    var x := Find(lru, dir + [name]);
    forall i, n | 0 <= i < |lru| && i != x && x < |lru| && Needs(contents, lru, log, i, id, done, n)
      ensures lru[x].0 != lru[i].0 + [n]
    {
      SameChild(dir, name, lru[i].0, n);
    }
  }

  ghost predicate DotNamesOf(contents: Contents, dir: Path, dirModtime: int, names: seq<Bytes>) {
    && (forall n :: n in names <==> n in contents(dir, dirModtime) && DotUnder(n))
    && forall i, j :: 0 <= i < j < |names| ==> names[i] != names[j]
  }

  ghost function DoneNames(names: seq<Bytes>, n: nat): set<Bytes>
    requires n <= |names|
  {
    set k | 0 <= k < n :: names[k]
  }

  lemma {:induction false} ListedStep(contents: Contents, may: iset<Path>, lru: Lru, log: Log, dir: Path,
                                      names: seq<Bytes>, e: CacheEntry, n: nat)
    requires Sound(contents, may, lru, log) && dir in may && Harmless(contents, may, dir) && e.dirId == |log|
    requires DotNamesOf(contents, dir, e.dirModtime, names) && n <= |names|
    ensures Partial(contents, may, Listed(lru, dir, names[..n], e), log + [(dir, e.dirModtime)], DoneNames(names, n))
  {
    if n == 0 {
      DirectoryPut(contents, may, lru, log, dir, e);
      assert DoneNames(names, 0) == {};
    } else {
      ListedStep(contents, may, lru, log, dir, names, e, n - 1);
      ListedNext(lru, dir, names, e, n - 1);
      var before, done := Listed(lru, dir, names[..n - 1], e), DoneNames(names, n - 1);
      var log' := log + [(dir, e.dirModtime)];
      assert names[n - 1] in names && log'[|log'| - 1] == (dir, e.dirModtime);
      FilePut(contents, may, before, log', names[n - 1], e, done);
      assert DoneNames(names, n) == done + {names[n - 1]};
    }
  }

  /** Listing a directory keeps the cache sound. */
  lemma ListedKeepsSound(contents: Contents, may: iset<Path>, lru: Lru, log: Log, dir: Path, names: seq<Bytes>,
                         e: CacheEntry)
    requires Sound(contents, may, lru, log) && dir in may && Harmless(contents, may, dir) && e.dirId == |log|
    requires DotNamesOf(contents, dir, e.dirModtime, names)
    ensures Sound(contents, may, Listed(lru, dir, names, e), log + [(dir, e.dirModtime)])
  {
    ListedStep(contents, may, lru, log, dir, names, e, |names|);
    assert names[..|names|] == names;
    var lru', log' := Listed(lru, dir, names, e), log + [(dir, e.dirModtime)];
    var done := DoneNames(names, |names|);
    forall i, n | 0 <= i < |lru'| && Needs(contents, lru', log', i, |log'|, {}, n) ensures FileAfter(lru', i, n) {
      if lru'[i].1.dirId == e.dirId {
        assert EntryTrue(contents, may, lru'[i], log');
        assert n in names;
        assert n in done;
      }
      assert Needs(contents, lru', log', i, e.dirId, done, n);
    }
  }

  /** Looking a file up keeps the cache sound, stale directory or not. */
  lemma LookedKeepsSound(contents: Contents, may: iset<Path>, lru: Lru, log: Log, p: Path, modtime: Option<int>)
    requires Sound(contents, may, lru, log) && Harmless(contents, may, Init(p))
    ensures Sound(contents, may, Looked(lru, p, modtime).1, log)
  {
    var x := Find(lru, Init(p));
    if x < |lru| {
      HarmlessIsUnneeded(contents, may, lru, log, Init(p));
      DropKeepsComplete(contents, lru, log, x, |log|, {});
      DropKeepsRest(contents, may, lru, x, log);
    }
  }

  lemma {:induction false} PurgedKeepsSound(contents: Contents, may: iset<Path>, lru: Lru, log: Log, now: int)
    requires Sound(contents, may, lru, log)
    ensures Sound(contents, may, Purged(lru, now), log)
  {
    if lru != [] && TooOld(lru[0].1, now) {
      OldestIsUnneeded(contents, lru, log, |log|, {});
      DropKeepsComplete(contents, lru, log, 0, |log|, {});
      DropKeepsRest(contents, may, lru, 0, log);
      PurgedKeepsSound(contents, may, lru[1..], log, now);
    }
  }

  ghost predicate Current(lru: Lru, dir: Path, modtime: Option<int>) {
    modtime.Some? && Peek(lru, dir).Some? && Peek(lru, dir).value.dirModtime == modtime.value
  }

  /**
   What a sound cache answers: "does not exist" is said exactly when there is a current entry for the
   directory, and the file is not in the directory, or the entry is not the directory's own but its record as
   a file.
   */
  lemma AnswerMeans(contents: Contents, may: iset<Path>, lru: Lru, log: Log, p: Path, modtime: Option<int>)
    requires Sound(contents, may, lru, log) && DotUnder(FileName(p))
    ensures Looked(lru, p, modtime).0 <==>
              && Current(lru, Init(p), modtime)
              && (IsDirectory((Init(p), Peek(lru, Init(p)).value), log) ==> !IsThere(contents, p, modtime.value))
  {
    var i, x := Find(lru, Init(p)), Find(lru, p);
    assert Init(p) + [FileName(p)] == p;
    if i < |lru| && modtime == Some(lru[i].1.dirModtime) {
      assert EntryTrue(contents, may, lru[i], log) && lru[i].0 == Init(p);
      if IsDirectory(lru[i], log) && IsThere(contents, p, modtime.value) {
        assert Needs(contents, lru, log, i, |log|, {}, FileName(p));
        assert FileAfter(lru, i, FileName(p));
        var j :| i < j < |lru| && lru[j].0 == lru[i].0 + [FileName(p)] && lru[j].1.dirId == lru[i].1.dirId;
        assert x == j;
      }
      if x < |lru| && lru[x].1.dirId == lru[i].1.dirId {
        assert EntryTrue(contents, may, lru[x], log) && |p| == |Init(p)| + 1;
      }
    }
  }

  /**
   In a sound cache the answer about a file whose directory cannot be mistaken is right, and as good as it can
   be: "does not exist" is said exactly when the directory's entry is there and current and the file is not in it.
   */
  lemma AnswerIsRight(contents: Contents, may: iset<Path>, lru: Lru, log: Log, p: Path, modtime: Option<int>)
    requires Sound(contents, may, lru, log) && DotUnder(FileName(p)) && Clear(contents, p)
    ensures Looked(lru, p, modtime).0 <==>
              Current(lru, Init(p), modtime) && !IsThere(contents, p, modtime.value)
  {
    AnswerMeans(contents, may, lru, log, p, modtime);
    var i := Find(lru, Init(p));
    if i < |lru| {
      assert EntryTrue(contents, may, lru[i], log) && lru[i].0 == Init(p);
    }
  }

  // ---------------------------------------------------------------------------------------------
  // Runs

  datatype Event =
    | List(dir: Path, names: seq<Bytes>, dirModtime: int, time: int)
    | Look(p: Path, modtime: Option<int>)
    | Purge(now: int)

  function Step(lru: Lru, nextId: nat, ev: Event): (Lru, nat) {
    match ev
    case List(dir, names, dirModtime, time) => (Listed(lru, dir, names, CacheEntry(time, dirModtime, nextId)),
                                                nextId + 1)
    case Look(p, modtime) => (Looked(lru, p, modtime).1, nextId)
    case Purge(now) => (Purged(lru, now), nextId)
  }

  function Run(events: seq<Event>): (Lru, nat) {
    if events == [] then ([], 1)
    else
      var (lru, nextId) := Run(events[..|events| - 1]);
      Step(lru, nextId, events[|events| - 1])
  }

  /** What each id of the run was of; there is no listing with the first id. */
  function LogOf(events: seq<Event>): Log {
    if events == [] then [([], 0)]
    else
      var before, ev := LogOf(events[..|events| - 1]), events[|events| - 1];
      if ev.List? then before + [(ev.dir, ev.dirModtime)] else before
  }

  /** A listing is as the directory is; directories listed are in `may`, and they and those looked into harmless. */
  ghost predicate Proper(contents: Contents, may: iset<Path>, ev: Event) {
    match ev
    case List(dir, names, dirModtime, _) =>
      dir in may && Harmless(contents, may, dir) && DotNamesOf(contents, dir, dirModtime, names)
    case Look(p, _) => Harmless(contents, may, Init(p))
    case Purge(_) => true
  }

  lemma {:induction false} EveryRunIsSound(contents: Contents, may: iset<Path>, events: seq<Event>)
    requires forall n :: 0 <= n < |events| ==> Proper(contents, may, events[n])
    ensures |LogOf(events)| == Run(events).1 && Sound(contents, may, Run(events).0, LogOf(events))
  {
    if events != [] {
      var before, ev := events[..|events| - 1], events[|events| - 1];
      EveryRunIsSound(contents, may, before);
      var (lru, nextId) := Run(before);
      assert Proper(contents, may, ev);
      match ev {
        case List(dir, names, dirModtime, time) =>
          ListedKeepsSound(contents, may, lru, LogOf(before), dir, names, CacheEntry(time, dirModtime, nextId));
        case Look(p, modtime) =>
          LookedKeepsSound(contents, may, lru, LogOf(before), p, modtime);
        case Purge(now) =>
          PurgedKeepsSound(contents, may, lru, LogOf(before), now);
      }
    }
  }

  /** After any run of listings, lookups, evictions and purges, a file said not to exist does not exist. */
  lemma EveryAnswerIsRight(contents: Contents, may: iset<Path>, events: seq<Event>, p: Path, modtime: Option<int>)
    requires forall n :: 0 <= n < |events| ==> Proper(contents, may, events[n])
    requires DotUnder(FileName(p)) && Clear(contents, p)
    ensures Looked(Run(events).0, p, modtime).0 ==> modtime.Some? && !IsThere(contents, p, modtime.value)
    ensures Current(Run(events).0, Init(p), modtime) ==>
              (Looked(Run(events).0, p, modtime).0 <==> !IsThere(contents, p, modtime.value))
  {
    EveryRunIsSound(contents, may, events);
    AnswerIsRight(contents, may, Run(events).0, LogOf(events), p, modtime);
  }

  // ---------------------------------------------------------------------------------------------
  // Why other directories do harm

  lemma FindDistinct(lru: Lru, i: nat)
    requires KeysDistinct(lru) && i < |lru|
    ensures Find(lru, lru[i].0) == i
  {}

  lemma PeekAfterDrop(lru: Lru, x: nat, k: Path)
    requires KeysDistinct(lru) && x < |lru|
    ensures KeysDistinct(DropAt(lru, x))
    ensures Peek(DropAt(lru, x), k) == if k == lru[x].0 then None else Peek(lru, k)
  {
    var after := DropAt(lru, x);
    assert forall i :: 0 <= i < |after| ==> after[i] == lru[if i < x then i else i + 1];
    var i := Find(lru, k);
    if i < |lru| && k != lru[x].0 {
      var i' := if i < x then i else i - 1;
      assert after[i'] == lru[i];
      FindDistinct(after, i');
    }
  }

  lemma PeekAfterAppend(lru: Lru, key: Path, e: CacheEntry, k: Path)
    requires KeysDistinct(lru) && Peek(lru, key) == None
    ensures KeysDistinct(lru + [(key, e)])
    ensures Peek(lru + [(key, e)], k) == if k == key then Some(e) else Peek(lru, k)
  {
    var after := lru + [(key, e)];
    assert after[|lru|] == (key, e);
    if k == key {
      FindDistinct(after, |lru|);
    } else if Find(lru, k) < |lru| {
      assert after[Find(lru, k)] == lru[Find(lru, k)];
      FindDistinct(after, Find(lru, k));
    }
  }

  lemma PeekAfterPut(lru: Lru, key: Path, e: CacheEntry, k: Path)
    requires KeysDistinct(lru) && |lru| < DU_CACHE_ENTRIES
    ensures KeysDistinct(Put(lru, key, e)) && |Put(lru, key, e)| <= |lru| + 1
    ensures Peek(Put(lru, key, e), k) == if k == key then Some(e) else Peek(lru, k)
  {
    var x, room := Find(lru, key), RoomFor(lru, key);
    if x < |lru| {
      PeekAfterDrop(lru, x, k);
      PeekAfterDrop(lru, x, key);
    } else {
      assert room == lru;
    }
    PeekAfterAppend(room, key, e, k);
  }

  ghost predicate ListsKey(dir: Path, names: seq<Bytes>, k: Path) {
    k == dir || (Under(k, dir) && FileName(k) in names)
  }

  lemma ListsOneMore(dir: Path, names: seq<Bytes>, name: Bytes, k: Path)
    ensures ListsKey(dir, names + [name], k) <==> ListsKey(dir, names, k) || k == dir + [name]
  {
    var file := dir + [name];
    assert Init(file) == dir && FileName(file) == name;
    if Under(k, dir) && FileName(k) == name {
      assert k == Init(k) + [FileName(k)];
    }
  }

  /** A listing that fits: its directory and each of its files get the new entry, and nothing is pushed out. */
  lemma {:induction false} PeekAfterListing(lru: Lru, dir: Path, names: seq<Bytes>, e: CacheEntry, k: Path)
    requires KeysDistinct(lru) && |lru| + |names| < DU_CACHE_ENTRIES
    ensures KeysDistinct(Listed(lru, dir, names, e)) && |Listed(lru, dir, names, e)| <= |lru| + 1 + |names|
    ensures Peek(Listed(lru, dir, names, e), k) == if ListsKey(dir, names, k) then Some(e) else Peek(lru, k)
    decreases |names|
  {
    if names == [] {
      PeekAfterPut(lru, dir, e, k);
    } else {
      var init, name := names[..|names| - 1], names[|names| - 1];
      assert names == init + [name];
      PeekAfterListing(lru, dir, init, e, k);
      var before := Listed(lru, dir, init, e);
      assert Listed(lru, dir, names, e) == Put(before, dir + [name], e);
      PeekAfterPut(before, dir + [name], e, k);
      ListsOneMore(dir, init, name, k);
    }
  }

  lemma RunOfTwo(a: Event, b: Event)
    ensures Run([a]) == Step([], 1, a) && Run([a, b]) == Step(Run([a]).0, Run([a]).1, b)
  {
    assert [a][..0] == [] && [a, b][..1] == [a];
  }

  /**
   After its parent, an existing "._" path is listed as a directory, which replaces its record as a file: it
   is then said not to exist.
   */
  lemma ListingDotDirectoryFools(contents: Contents, dir: Path, names: seq<Bytes>, name: Bytes, modtime: int,
                                 inner: seq<Bytes>, innerModtime: int, time: int)
    requires DotNamesOf(contents, dir, modtime, names) && name in names
    requires 1 + |names| + |inner| < DU_CACHE_ENTRIES
    ensures IsThere(contents, dir + [name], modtime)
    ensures var events := [List(dir, names, modtime, time), List(dir + [name], inner, innerModtime, time)];
            Looked(Run(events).0, dir + [name], Some(modtime)).0
  {
    var p := dir + [name];
    assert Init(p) == dir && FileName(p) == name;
    var listed, again := List(dir, names, modtime, time), List(p, inner, innerModtime, time);
    RunOfTwo(listed, again);
    var lru := Run([listed]).0;
    PeekAfterListing([], dir, names, CacheEntry(time, modtime, 1), dir);
    PeekAfterListing(lru, p, inner, CacheEntry(time, innerModtime, 2), dir);
    PeekAfterListing(lru, p, inner, CacheEntry(time, innerModtime, 2), p);
    assert |dir| < |p| && !Under(dir, p) && !Under(p, p);
  }

  /**
   So does merely looking for a "._" file in it: the lookup takes the file's record for a stale directory and
   drops it. It need not even be a directory: below a file there is no modification time to be had.
   */
  lemma LookingIntoDotDirectoryFools(contents: Contents, dir: Path, names: seq<Bytes>, name: Bytes, modtime: int,
                                     inner: Bytes, innerModtime: Option<int>, time: int)
    requires DotNamesOf(contents, dir, modtime, names) && name in names && |names| < DU_CACHE_ENTRIES
    requires DotUnder(inner) && innerModtime != Some(modtime)
    ensures IsThere(contents, dir + [name], modtime)
    ensures var events := [List(dir, names, modtime, time), Look(dir + [name] + [inner], innerModtime)];
            Looked(Run(events).0, dir + [name], Some(modtime)).0
  {
    var p := dir + [name];
    var q := p + [inner];
    assert Init(p) == dir && FileName(p) == name && Init(q) == p;
    var e := CacheEntry(time, modtime, 1);
    var listed, looked := List(dir, names, modtime, time), Look(q, innerModtime);
    RunOfTwo(listed, looked);
    var lru := Run([listed]).0;
    PeekAfterListing([], dir, names, e, dir);
    PeekAfterListing([], dir, names, e, p);
    var x := Find(lru, p);
    PeekAfterDrop(lru, x, dir);
    PeekAfterDrop(lru, x, p);
  }

  lemma {:induction false} NamesInOrder(names: set<Bytes>) returns (order: seq<Bytes>)
    ensures |order| == |names| && forall n :: n in order <==> n in names
    ensures forall i, j :: 0 <= i < j < |order| ==> order[i] != order[j]
    decreases names
  {
    order := [];
    if n :| n in names {
      var fewer := NamesInOrder(names - {n});
      order := fewer + [n];
    }
  }

  lemma {:induction false} ListedKeys(dir: Path, names: seq<Bytes>, e: CacheEntry)
    ensures KeysDistinct(Listed([], dir, names, e))
    ensures forall i :: 0 <= i < |Listed([], dir, names, e)| ==>
              Listed([], dir, names, e)[i].0 == dir || Under(Listed([], dir, names, e)[i].0, dir)
    decreases |names|
  {
    if names != [] {
      var before, file := Listed([], dir, names[..|names| - 1], e), dir + [names[|names| - 1]];
      ListedKeys(dir, names[..|names| - 1], e);
      assert Init(file) == dir;
      PutLast(before, file, e);
      RoomInside(before, file);
    }
  }

  /** Put last, a key is there with its entry, however full the cache. */
  lemma PutLast(lru: Lru, key: Path, e: CacheEntry)
    requires KeysDistinct(lru)
    ensures KeysDistinct(Put(lru, key, e)) && Peek(Put(lru, key, e), key) == Some(e)
  {
    var room := RoomFor(lru, key);
    RoomInside(lru, key);
    if Find(lru, key) < |lru| { PeekAfterDrop(lru, Find(lru, key), key); }
    PeekAfterAppend(room, key, e, key);
  }

  /**
   Without any "._" directory having been listed or looked into: a file in one is said not to exist, if this
   directory has the modification time that its own directory had when it was listed. The lookup takes the
   record of the directory as a file for a current listing of it, in which the file is missing.
   */
  lemma FileInDotDirectoryDenied(contents: Contents, dir: Path, names: seq<Bytes>, name: Bytes, inner: Bytes,
                                 modtime: int, time: int)
    requires DotNamesOf(contents, dir, modtime, names) && name in names && inner in contents(dir + [name], modtime)
    requires |names| < DU_CACHE_ENTRIES || names[|names| - 1] == name
    ensures IsThere(contents, dir + [name] + [inner], modtime)
    ensures Looked(Run([List(dir, names, modtime, time)]).0, dir + [name] + [inner], Some(modtime)).0
  {
    var d, q, e := dir + [name], dir + [name] + [inner], CacheEntry(time, modtime, 1);
    assert Init(d) == dir && FileName(d) == name && Init(q) == d && FileName(q) == inner;
    var listed := List(dir, names, modtime, time);
    assert [listed][..0] == [];
    var lru := Listed([], dir, names, e);
    if |names| < DU_CACHE_ENTRIES {
      PeekAfterListing([], dir, names, e, d);
    } else {
      ListedKeys(dir, names[..|names| - 1], e);
      PutLast(Listed([], dir, names[..|names| - 1], e), d, e);
    }
    ListedKeys(dir, names, e);
    assert |q| == |dir| + 2 && !Under(q, dir);
    assert Peek(lru, q) == None;
  }

  // ---------------------------------------------------------------------------------------------
  // Exactly when all is well

  /** An honest run in which directories in `may` are listed and looked into. */
  ghost predicate RunOver(contents: Contents, may: iset<Path>, events: seq<Event>) {
    forall n :: 0 <= n < |events| ==> StepOver(contents, may, events[n])
  }

  ghost predicate StepOver(contents: Contents, may: iset<Path>, ev: Event) {
    match ev
    case List(dir, names, t, _) => dir in may && DotNamesOf(contents, dir, t, names)
    case Look(q, _) => DotUnder(FileName(q)) && Init(q) in may
    case Purge(_) => true
  }

  /** This file is never said not to exist while it is there. */
  ghost predicate NeverDenied(contents: Contents, events: seq<Event>, q: Path) {
    forall t :: IsThere(contents, q, t) ==> !Looked(Run(events).0, q, Some(t)).0
  }

  /** Every directory in use is harmless, and no file of one that is a "._" file of another in use can be denied. */
  ghost predicate Safe(contents: Contents, may: iset<Path>) {
    && (forall p :: p in may ==> Harmless(contents, may, p))
    && (forall q :: DotUnder(FileName(q)) && Init(Init(q)) in may ==> Clear(contents, q))
  }

  /** A listing in which this name comes last. */
  lemma ListingEndingIn(contents: Contents, dir: Path, name: Bytes, t: int) returns (names: seq<Bytes>)
    requires name in DotNames(contents, dir, t)
    ensures DotNamesOf(contents, dir, t, names) && names != [] && names[|names| - 1] == name
  {
    var others := NamesInOrder(DotNames(contents, dir, t) - {name});
    names := others + [name];
  }

  /** The run that denies a file that is not `Clear`: one listing. */
  lemma DenyingRun(contents: Contents, q: Path) returns (ev: Event)
    requires DotUnder(FileName(q)) && !Clear(contents, q)
    ensures ev.List? && ev.dir == Init(Init(q)) && DotNamesOf(contents, ev.dir, ev.dirModtime, ev.names)
    ensures !NeverDenied(contents, [ev], q)
  {
    var d := Init(q);
    var t :| IsThere(contents, q, t) && IsThere(contents, d, t);
    var dir, name := Init(d), FileName(d);
    assert d == dir + [name] && q == d + [FileName(q)];
    var names := ListingEndingIn(contents, dir, name, t);
    ev := List(dir, names, t, 0);
    FileInDotDirectoryDenied(contents, dir, names, name, FileName(q), t, 0);
  }

  /** Where harmless directories alone are used, a file is never denied, in any run, exactly if it is `Clear`. */
  lemma NeverDeniedIffClear(contents: Contents, may: iset<Path>, q: Path)
    requires DotUnder(FileName(q)) && Init(Init(q)) in may && Harmless(contents, may, Init(Init(q)))
    ensures (forall events | (forall n :: 0 <= n < |events| ==> Proper(contents, may, events[n])) ::
               NeverDenied(contents, events, q)) <==> Clear(contents, q)
  {
    if Clear(contents, q) {
      forall events | forall n :: 0 <= n < |events| ==> Proper(contents, may, events[n])
        ensures NeverDenied(contents, events, q)
      {
        forall t | IsThere(contents, q, t) ensures !Looked(Run(events).0, q, Some(t)).0 {
          EveryAnswerIsRight(contents, may, events, q, Some(t));
        }
      }
    } else {
      var ev := DenyingRun(contents, q);
      assert Proper(contents, may, ev);
      var events := [ev];
      assert forall n :: 0 <= n < |events| ==> Proper(contents, may, events[n]);
      assert !NeverDenied(contents, events, q);
    }
  }

  /** The run that denies a path that is not harmless: a listing of its directory, and a lookup below it. */
  lemma FoolingRun(contents: Contents, may: iset<Path>, p: Path) returns (events: seq<Event>)
    requires p in may && !Harmless(contents, may, p)
    ensures RunOver(contents, may, events) && DotUnder(FileName(p)) && !NeverDenied(contents, events, p)
  {
    var t :| IsThere(contents, p, t) && |DotNames(contents, Init(p), t)| < DU_CACHE_ENTRIES;
    var dir, name, inner: Bytes := Init(p), FileName(p), [DOT, 95];
    assert p == dir + [name];
    var names := NamesInOrder(DotNames(contents, dir, t));
    var q := p + [inner];
    var listed, looked := List(dir, names, t, 0), Look(q, None);
    events := [listed, looked];
    LookingIntoDotDirectoryFools(contents, dir, names, name, t, inner, None, 0);
    assert Init(q) == p && FileName(q) == inner;
    forall n | 0 <= n < |events| ensures StepOver(contents, may, events[n]) {
      assert events[n] == if n == 0 then listed else looked;
    }
  }

  lemma SafeRunsAreRight(contents: Contents, may: iset<Path>, events: seq<Event>, q: Path)
    requires Safe(contents, may) && RunOver(contents, may, events) && DotUnder(FileName(q))
    ensures NeverDenied(contents, events, q)
  {
    forall n | 0 <= n < |events| ensures Proper(contents, may, events[n]) {
      assert StepOver(contents, may, events[n]);
    }
    EveryRunIsSound(contents, may, events);
    var lru, log := Run(events).0, LogOf(events);
    forall t | IsThere(contents, q, t) ensures !Looked(lru, q, Some(t)).0 {
      AnswerMeans(contents, may, lru, log, q, Some(t));
      var i := Find(lru, Init(q));
      if i < |lru| && !IsDirectory(lru[i], log) {
        assert EntryTrue(contents, may, lru[i], log);
        assert Clear(contents, q);
      }
    }
  }

  /**
   For any directories that are listed and looked into: no file, wherever it lies, is ever denied in any run,
   exactly if these directories are safe.
   */
  lemma RightIffSafe(contents: Contents, may: iset<Path>)
    ensures (forall events, q :: RunOver(contents, may, events) && DotUnder(FileName(q)) ==>
               NeverDenied(contents, events, q)) <==> Safe(contents, may)
  {
    if Safe(contents, may) {
      forall events, q | RunOver(contents, may, events) && DotUnder(FileName(q))
        ensures NeverDenied(contents, events, q)
      {
        SafeRunsAreRight(contents, may, events, q);
      }
    } else if p :| p in may && !Harmless(contents, may, p) {
      var events := FoolingRun(contents, may, p);
    } else {
      var q :| DotUnder(FileName(q)) && Init(Init(q)) in may && !Clear(contents, q);
      var ev := DenyingRun(contents, q);
      var events := [ev];
      assert RunOver(contents, may, events) by { assert StepOver(contents, may, events[0]); }
    }
  }

  // ---------------------------------------------------------------------------------------------
  // What the age purge drops

  /** Each key once, in the order of entry, and nothing entered after `t`. */
  ghost predicate ByAge(lru: Lru, t: int) {
    && KeysDistinct(lru)
    && (forall i, j :: 0 <= i < j < |lru| ==> lru[i].1.time <= lru[j].1.time)
    && forall i :: 0 <= i < |lru| ==> lru[i].1.time <= t
  }

  lemma DropKeepsAge(lru: Lru, x: nat, t: int)
    requires ByAge(lru, t)
    ensures ByAge(DropAt(lru, x), t)
  {
    if x < |lru| {
      var after := DropAt(lru, x);
      assert forall i :: 0 <= i < |after| ==> after[i] == lru[if i < x then i else i + 1];
    }
  }

  lemma RoomKeepsAge(lru: Lru, key: Path, t: int)
    requires ByAge(lru, t)
    ensures ByAge(RoomFor(lru, key), t)
  {
    DropKeepsAge(lru, Find(lru, key), t);
    DropKeepsAge(lru, 0, t);
    assert lru != [] ==> DropAt(lru, 0) == lru[1..];
  }

  lemma PutKeepsAge(lru: Lru, key: Path, e: CacheEntry)
    requires ByAge(lru, e.time)
    ensures ByAge(Put(lru, key, e), e.time)
  {
    RoomKeepsAge(lru, key, e.time);
    PutLast(lru, key, e);
    AppendKeepsAge(RoomFor(lru, key), (key, e));
  }

  lemma AppendKeepsAge(lru: Lru, item: (Path, CacheEntry))
    requires ByAge(lru, item.1.time) && KeysDistinct(lru + [item])
    ensures ByAge(lru + [item], item.1.time)
  {}

  lemma {:induction false} ListedKeepsAge(lru: Lru, dir: Path, names: seq<Bytes>, e: CacheEntry)
    requires ByAge(lru, e.time)
    ensures ByAge(Listed(lru, dir, names, e), e.time)
    decreases |names|
  {
    if names == [] {
      PutKeepsAge(lru, dir, e);
    } else {
      var init := names[..|names| - 1];
      ListedKeepsAge(lru, dir, init, e);
      PutKeepsAge(Listed(lru, dir, init, e), dir + [names[|names| - 1]], e);
    }
  }

  /** In a cache that is in order the purge drops exactly the entries that are 61 seconds old or more. */
  lemma {:induction false} PurgeMeans(lru: Lru, now: int, t: int, k: Path)
    requires ByAge(lru, t)
    ensures ByAge(Purged(lru, now), t)
    ensures Peek(Purged(lru, now), k)
            == if Peek(lru, k).Some? && now - Peek(lru, k).value.time >= 61_000 then None else Peek(lru, k)
  {
    if lru != [] {
      var first := lru[0];
      assert TooOld(first.1, now) <==> now - first.1.time >= 61_000;
      if TooOld(first.1, now) {
        assert DropAt(lru, 0) == lru[1..];
        DropKeepsAge(lru, 0, t);
        PeekAfterDrop(lru, 0, k);
        PurgeMeans(lru[1..], now, t, k);
      } else if Find(lru, k) < |lru| {
        assert lru[Find(lru, k)].1.time >= first.1.time;
      }
    }
  }

  /** Listings are entered as time goes on, and none after `t`. */
  ghost predicate InOrder(events: seq<Event>, t: int) {
    && (forall i, j :: 0 <= i < j < |events| && events[i].List? && events[j].List? ==> events[i].time <= events[j].time)
    && forall i :: 0 <= i < |events| && events[i].List? ==> events[i].time <= t
  }

  lemma {:induction false} RunsAreByAge(events: seq<Event>, t: int)
    requires InOrder(events, t)
    ensures ByAge(Run(events).0, t)
    decreases |events|
  {
    if events != [] {
      var before, ev := events[..|events| - 1], events[|events| - 1];
      var (lru, nextId) := Run(before);
      match ev {
        case List(dir, names, dirModtime, time) =>
          RunsAreByAge(before, time);
          ListedKeepsAge(lru, dir, names, CacheEntry(time, dirModtime, nextId));
        case Look(p, modtime) =>
          RunsAreByAge(before, t);
          DropKeepsAge(lru, Find(lru, Init(p)), t);
        case Purge(now) =>
          RunsAreByAge(before, t);
          PurgeMeans(lru, now, t, []);
      }
    }
  }

  /** So in every run, whatever is listed, a purge forgets exactly what was listed 61 seconds ago or before. */
  lemma PurgeForgetsOld(events: seq<Event>, t: int, now: int, k: Path)
    requires InOrder(events, t)
    ensures var (before, after) := (Peek(Run(events).0, k), Peek(Run(events + [Purge(now)]).0, k));
            after == if before.Some? && now - before.value.time >= 61_000 then None else before
  {
    RunsAreByAge(events, t);
    PurgeMeans(Run(events).0, now, t, k);
    assert (events + [Purge(now)])[..|events|] == events;
  }

  // ---------------------------------------------------------------------------------------------
  // The cache and its builder

  class DUCache {
    var cache: Lru
    var nextDirId: nat
    ghost const contents: Contents
    ghost const may: iset<Path>        // the directories that are listed and looked into
    ghost var log: Log                 // the listings so far

    ghost predicate Valid()
      reads this
    {
      |log| == nextDirId && Sound(contents, may, cache, log)
    }

    constructor (ghost contents: Contents, ghost may: iset<Path>)
      ensures Valid() && this.contents == contents && this.may == may && (cache, nextDirId) == Run([])
    {
      this.contents, this.may := contents, may;
      cache, nextDirId := [], 1;
      log := LogOf([]);
    }

    /** One round of the house-keeping thread. */
    method PurgeOld(now: int)
      requires Valid()
      modifies this`cache
      ensures Valid() && cache == Purged(old(cache), now)
    {
      PurgedKeepsSound(contents, may, cache, log, now);
      ghost var before := cache;
      while cache != []
        invariant Purged(cache, now) == Purged(before, now)
        decreases |cache|
      {
        var oldest := cache[0].1;
        if now < oldest.time {
          break;
        }
        if (now - oldest.time) / 1000 <= DU_CACHE_MAX_AGE {
          break;
        }
        cache := cache[1..];
      }
    }

    /** The part of `finish` that holds the cache: the directory first, then its files. */
    method Insert(dir: Path, names: seq<Bytes>, modtime: int, now: int)
      modifies this
      ensures (cache, nextDirId) == Step(old(cache), old(nextDirId), List(dir, names, modtime, now))
      ensures log == old(log) + [(dir, modtime)]
    {
      var entry := CacheEntry(now, modtime, nextDirId);
      ghost var before := cache;
      nextDirId := nextDirId + 1;
      var filled := Put(cache, dir, entry);
      for n := 0 to |names|
        invariant filled == Listed(before, dir, names[..n], entry)
        invariant nextDirId == entry.dirId + 1 && log == old(log)
      {
        ListedNext(before, dir, names, entry, n);
        filled := Put(filled, dir + [names[n]], entry);
      }
      assert names[..|names|] == names;
      cache := filled;
      log := log + [(dir, modtime)];
    }

    lemma NegativeMeans(path: Path, modtime: Option<int>)
      ensures Valid() && Harmless(contents, may, Init(path)) ==>
                Sound(contents, may, Looked(cache, path, modtime).1, log)
      ensures Valid() && DotUnder(FileName(path)) && Clear(contents, path) ==>
                (Looked(cache, path, modtime).0 <==>
                   Current(cache, Init(path), modtime) && !IsThere(contents, path, modtime.value))
    {
      if Valid() && Harmless(contents, may, Init(path)) {
        LookedKeepsSound(contents, may, cache, log, path, modtime);
      }
      if Valid() && DotUnder(FileName(path)) && Clear(contents, path) {
        AnswerIsRight(contents, may, cache, log, path, modtime);
      }
    }

    /**
     Is it certain that `path`, whose name starts with "._", does not exist? `modtime` is its directory's, if
     it can be had.
     */
    method Negative(path: Path, modtime: Option<int>) returns (r: bool)
      modifies this`cache
      ensures (r, cache) == Looked(old(cache), path, modtime)
      ensures old(Valid()) && Harmless(contents, may, Init(path)) ==> Valid()
      ensures old(Valid()) && DotUnder(FileName(path)) && Clear(contents, path) ==>
                (r <==> Current(old(cache), Init(path), modtime) && !IsThere(contents, path, modtime.value))
    {
      NegativeMeans(path, modtime);
      if path == [] {
        return false;
      }
      var dir := Init(path);
      var entry := Peek(cache, dir);
      if entry.None? {
        return false;
      }
      if modtime != Some(entry.value.dirModtime) {
        cache := Pop(cache, dir);
        return false;
      }
      var file := Peek(cache, path);
      r := file.None? || file.value.dirId != entry.value.dirId;
    }
  }

  class DUCacheBuilder {
    const dir: Path
    var entries: seq<Bytes>
    var done: bool

    constructor (dir: Path)
      ensures this.dir == dir && entries == [] && !done
    {
      this.dir := dir;
      entries := [];
      done := false;
    }

    method Add(filename: Bytes)
      modifies this`entries
      ensures entries == if DotUnder(filename) then old(entries) + [filename] else old(entries)
    {
      if DotUnder(filename) {
        entries := entries + [filename];
      }
    }

    /**
     Put the directory and the "._" files collected into the cache, once; `modtime` is the directory's, if it
     can be had.
     */
    method Finish(c: DUCache, modtime: Option<int>, now: int)
      modifies this, c
      ensures done
      ensures (c.cache, c.nextDirId) ==
              if old(done) || modtime.None? then (old(c.cache), old(c.nextDirId))
              else Step(old(c.cache), old(c.nextDirId), List(dir, old(entries), modtime.value, now))
      ensures old(c.Valid()) && dir in c.may && Harmless(c.contents, c.may, dir)
              && (!old(done) && modtime.Some? ==> DotNamesOf(c.contents, dir, modtime.value, old(entries))) ==>
                c.Valid()
    {
      if done {
        return;
      }
      done := true;
      if modtime.None? {
        return;
      }
      FinishMeans(c.contents, c.may, c.cache, c.log, entries, CacheEntry(now, modtime.value, c.nextDirId));
      c.Insert(dir, entries, modtime.value, now);
      entries := [];
    }

    lemma FinishMeans(contents: Contents, may: iset<Path>, lru: Lru, log: Log, names: seq<Bytes>, e: CacheEntry)
      ensures Sound(contents, may, lru, log) && |log| == e.dirId && dir in may && Harmless(contents, may, dir)
              && DotNamesOf(contents, dir, e.dirModtime, names) ==>
                Sound(contents, may, Listed(lru, dir, names, e), log + [(dir, e.dirModtime)])
    {
      if Sound(contents, may, lru, log) && |log| == e.dirId && dir in may && Harmless(contents, may, dir)
         && DotNamesOf(contents, dir, e.dirModtime, names) {
        ListedKeepsSound(contents, may, lru, log, dir, names, e);
      }
    }
  }
}
