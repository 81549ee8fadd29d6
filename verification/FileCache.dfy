/** The disk cache, operation by operation: file system calls that may fail, and an index of what they
    should have left on disk, changed in place. */
module FileCache {
  import opened Bytes
  import opened FileIndex
  import opened FiniteSets
  import Lru

  datatype File = File(data: seq<byte>, time: int)

  type Disk = map<string, File>

  predicate IsTemp(path: string) { |path| >= 4 && path[|path| - 4..] == ".tmp" }

  function TempOf(path: string): string { path + ".tmp" }

  function DataOf(disk: Disk, path: string): seq<byte> { if path in disk then disk[path].data else [] }

  function TimeOf(disk: Disk, path: string): int { if path in disk then disk[path].time else 0 }

  /** The listed files as a least-recently-used list, most recent first. */
  function Recent(order: seq<string>, disk: Disk): Lru.Contents {
    if order == [] then []
    else var n := |order| - 1; [Lru.Entry(order[n], DataOf(disk, order[n]))] + Recent(order[..n], disk)
  }

  /** Every indexed path is a file of the indexed size, and no temporary file is indexed. */
  predicate Backed(ix: Index, disk: Disk) {
    forall path | path in ix.sizes :: path in disk && |disk[path].data| == ix.sizes[path] && !IsTemp(path)
  }

  /** The eviction order is the order of the modification times. */
  predicate Dated(order: seq<string>, disk: Disk, clock: int) {
    && (forall i, j | 0 <= i < j < |order| :: TimeOf(disk, order[i]) <= TimeOf(disk, order[j]))
    && (forall i | 0 <= i < |order| :: TimeOf(disk, order[i]) <= clock)
  }

  /** The index is a complete account of the disk. */
  ghost predicate Mirrors(ix: Index, disk: Disk, clock: int) {
    && Exact(ix) && Backed(ix, disk)
    && (forall path | path in disk :: path in ix.sizes)
    && Dated(ix.order, disk, clock)
  }

  // ----- The index as a least-recently-used list ------------------------------------------------------------

  lemma {:induction false} RecentSame(order: seq<string>, disk: Disk, other: Disk)
    requires forall p | p in order :: DataOf(disk, p) == DataOf(other, p)
    ensures Recent(order, disk) == Recent(order, other)
    decreases |order|
  {
    if order != [] {
      var n := |order| - 1;
      assert order[n] in order && forall p | p in order[..n] :: p in order;
      RecentSame(order[..n], disk, other);
    }
  }

  lemma {:induction false} RecentOmit(order: seq<string>, disk: Disk, path: string)
    ensures Recent(Omit(order, path), disk) == Lru.Without(Recent(order, disk), path)
    decreases |order|
  {
    if order != [] {
      var n := |order| - 1;
      RecentOmit(order[..n], disk, path);
      assert Recent(order, disk)[1..] == Recent(order[..n], disk);
      if order[n] != path {
        RecentPush(Omit(order[..n], path), disk, order[n]);
      }
    }
  }

  lemma RecentPush(order: seq<string>, disk: Disk, path: string)
    ensures Recent(order + [path], disk) == [Lru.Entry(path, DataOf(disk, path))] + Recent(order, disk)
  {
    assert (order + [path])[..|order|] == order;
  }

  lemma {:induction false} RecentSize(order: seq<string>, sizes: map<string, nat>, disk: Disk)
    requires forall p | p in order :: p in sizes && sizes[p] == |DataOf(disk, p)|
    ensures |Recent(order, disk)| == |order| && Lru.Size(Recent(order, disk)) == Sum(order, sizes)
    decreases |order|
  {
    if order != [] {
      var n := |order| - 1;
      assert order[n] in order && forall p | p in order[..n] :: p in order;
      RecentSize(order[..n], sizes, disk);
      assert Recent(order, disk)[1..] == Recent(order[..n], disk);
    }
  }

  lemma {:induction false} RecentFinds(order: seq<string>, disk: Disk, path: string)
    ensures Lru.Find(Recent(order, disk), path) ==
            if path in order then Lru.Some(DataOf(disk, path)) else Lru.None
    decreases |order|
  {
    if order != [] {
      var n := |order| - 1;
      assert order == order[..n] + [order[n]];
      RecentFinds(order[..n], disk, path);
      assert Recent(order, disk)[1..] == Recent(order[..n], disk);
    }
  }

  /** Dropping the least recently used path drops the last entry. */
  lemma {:induction false} RecentEvict(order: seq<string>, disk: Disk)
    requires order != [] && Distinct(order)
    ensures |Recent(order, disk)| == |order|
    ensures Recent(Omit(order, order[0]), disk) == Recent(order, disk)[..|order| - 1]
    ensures |Omit(order, order[0])| == |order| - 1
    decreases |order|
  {
    var n := |order| - 1;
    var all := Recent(order, disk);
    if n == 0 {
      assert Omit(order[..0], order[0]) == [];
    } else {
      assert order[..n][0] == order[0] != order[n];
      RecentEvict(order[..n], disk);
      RecentPush(Omit(order[..n], order[0]), disk, order[n]);
      assert all == [all[0]] + Recent(order[..n], disk);
      assert all[..n] == [all[0]] + Recent(order[..n], disk)[..n - 1];
    }
  }

  lemma {:induction false} OmitDated(order: seq<string>, disk: Disk, clock: int, path: string)
    requires Dated(order, disk, clock)
    ensures Dated(Omit(order, path), disk, clock)
    ensures forall p | p in Omit(order, path) :: p in order && p != path
    decreases |order|
  {
    if order != [] {
      var n := |order| - 1;
      OmitDated(order[..n], disk, clock, path);
      var rest := Omit(order[..n], path);
      forall i | 0 <= i < |rest| ensures TimeOf(disk, rest[i]) <= TimeOf(disk, order[n]) {
        assert rest[i] in order[..n];
      }
    }
  }

  lemma PushDated(order: seq<string>, disk: Disk, clock: int, path: string, file: File)
    requires Dated(order, disk, clock) && clock < file.time && path !in order
    ensures Dated(order + [path], disk[path := file], file.time)
  {
    assert forall i | 0 <= i < |order| :: order[i] in order;
  }

  // ----- What each operation does to a mirrored disk ----------------------------------------------------------

  lemma DatedSame(order: seq<string>, disk: Disk, other: Disk, clock: int)
    requires Dated(order, disk, clock) && forall p | p in order :: TimeOf(other, p) == TimeOf(disk, p)
    ensures Dated(order, other, clock)
  {
    assert forall i | 0 <= i < |order| :: order[i] in order;
  }

  lemma StoredDated(order: seq<string>, disk: Disk, clock: int, path: string, file: File)
    requires Dated(order, disk, clock) && clock < file.time
    ensures Dated(Omit(order, path) + [path], disk[path := file], file.time)
  {
    OmitDated(order, disk, clock, path);
    PushDated(Omit(order, path), disk, clock, path, file);
  }

  lemma StoredBacked(ix: Index, disk: Disk, path: string, file: File)
    requires Backed(ix, disk) && !IsTemp(path)
    ensures Backed(Run(ix, List(path, |file.data|)), disk[path := file])
  {
  }

  /** A file just written or touched becomes the most recent. */
  lemma StoredMirrors(ix: Index, disk: Disk, clock: int, path: string, file: File)
    requires Mirrors(ix, disk, clock) && clock < file.time && !IsTemp(path)
    ensures var after := disk[path := file];
      && Mirrors(Run(ix, List(path, |file.data|)), after, file.time)
      && Recent(Run(ix, List(path, |file.data|)).order, after) ==
           [Lru.Entry(path, file.data)] + Lru.Without(Recent(ix.order, disk), path)
  {
    hide Exact, Dated, Backed, Recent;
    var after, rest := disk[path := file], Omit(ix.order, path);
    ListKeeps(ix, path, |file.data|);
    StoredBacked(ix, disk, path, file);
    StoredDated(ix.order, disk, clock, path, file);
    OmitMembers(ix.order, path);
    RecentOmit(ix.order, disk, path);
    RecentSame(rest, disk, after);
    RecentPush(rest, after, path);
  }

  lemma DroppedBacked(ix: Index, disk: Disk, path: string)
    requires Backed(ix, disk)
    ensures Backed(Dropped(ix, path), disk)
    ensures path !in Dropped(ix, path).sizes
    ensures Backed(Dropped(ix, path), disk - {path})
  {
  }

  lemma DroppedMirrors(ix: Index, disk: Disk, clock: int, path: string)
    requires Mirrors(ix, disk, clock)
    ensures Mirrors(Dropped(ix, path), disk - {path}, clock)
    ensures Recent(Dropped(ix, path).order, disk - {path}) == Lru.Without(Recent(ix.order, disk), path)
  {
    hide Exact, Dated;
    var rest := Omit(ix.order, path);
    DropKeeps(ix, path);
    DroppedBacked(ix, disk, path);
    OmitDated(ix.order, disk, clock, path);
    DatedSame(rest, disk, disk - {path}, clock);
    RecentOmit(ix.order, disk, path);
    RecentSame(rest, disk, disk - {path});
    DroppedOrder(ix, path);
  }

  lemma DroppedOrder(ix: Index, path: string)
    requires Exact(ix)
    ensures Dropped(ix, path).order == Omit(ix.order, path)
  {
    if path !in ix.sizes {
      OmitAbsent(ix.order, path);
    }
  }

  /** One round of the trim loop is one step of the least-recently-used list. */
  lemma EvictMirrors(ix: Index, disk: Disk, clock: int, maxBytes: int)
    requires Mirrors(ix, disk, clock) && Overfull(ix, maxBytes)
    ensures Mirrors(Dropped(ix, ix.order[0]), disk - {ix.order[0]}, clock)
    ensures Lru.Fit(Recent(Dropped(ix, ix.order[0]).order, disk - {ix.order[0]}), maxBytes) ==
            Lru.Fit(Recent(ix.order, disk), maxBytes)
  {
    hide Lru.Without, Dated, Sum;
    var path := ix.order[0];
    DroppedMirrors(ix, disk, clock, path);
    RecentSize(ix.order, ix.sizes, disk);
    RecentEvict(ix.order, disk);
    RecentOmit(ix.order, disk, path);
  }

  lemma FitsAlready(ix: Index, disk: Disk, clock: int, maxBytes: int)
    requires Mirrors(ix, disk, clock) && !Overfull(ix, maxBytes)
    ensures Lru.Fit(Recent(ix.order, disk), maxBytes) == Recent(ix.order, disk)
  {
    RecentSize(ix.order, ix.sizes, disk);
  }

  lemma TouchIsList(ix: Index, path: string)
    requires path in ix.sizes
    ensures Run(ix, Touch(path)) == Run(ix, List(path, ix.sizes[path]))
  {
    assert ix.sizes[path := ix.sizes[path]] == ix.sizes;
  }

  // ----- Restarts --------------------------------------------------------------------------------------------

  predicate TimesDiffer(disk: Disk) {
    forall p, q | p in disk && q in disk && p != q :: disk[p].time != disk[q].time
  }

  /** A restarted cache, which sorts the files by modification time, finds the eviction order it had. */
  lemma {:induction false} RestartKeepsOrder(order: seq<string>, other: seq<string>, disk: Disk, clock: int)
    requires TimesDiffer(disk) && Distinct(order) && Distinct(other)
    requires Dated(order, disk, clock) && Dated(other, disk, clock)
    requires forall p :: p in order <==> p in other
    requires forall p | p in order :: p in disk
    ensures order == other
    decreases |order|
  {
    hide Dated, Distinct, TimesDiffer;
    if other != [] {
      assert other[0] in other;
    }
    if order != [] {
      assert order[0] in order;
      var n, m := |order| - 1, |other| - 1;
      SameLast(order, other, disk, clock);
      InitMembers(order);
      InitMembers(other);
      InitDated(order, disk, clock);
      InitDated(other, disk, clock);
      assert order == order[..n] + [order[n]] && other == other[..m] + [other[m]];
      RestartKeepsOrder(order[..n], other[..m], disk, clock);
    }
  }

  lemma InitMembers(order: seq<string>)
    requires Distinct(order) && order != []
    ensures var n := |order| - 1;
      Distinct(order[..n]) && forall p :: p in order[..n] <==> p in order && p != order[n]
  {
    var n := |order| - 1;
    assert order == order[..n] + [order[n]];
    assert order[n] !in order[..n];
  }

  lemma InitDated(order: seq<string>, disk: Disk, clock: int)
    requires Dated(order, disk, clock) && order != []
    ensures Dated(order[..|order| - 1], disk, clock)
  {
  }

  lemma SameLast(order: seq<string>, other: seq<string>, disk: Disk, clock: int)
    requires TimesDiffer(disk) && order != [] && other != []
    requires Dated(order, disk, clock) && Dated(other, disk, clock)
    requires forall p :: p in order <==> p in other
    requires forall p | p in order :: p in disk
    ensures order[|order| - 1] == other[|other| - 1]
  {
    var p, q := order[|order| - 1], other[|other| - 1];
    assert p in order && q in other;
    var i :| 0 <= i < |order| && order[i] == q;
    var j :| 0 <= j < |other| && other[j] == p;
  }

  lemma {:induction false} Oldest(rest: set<string>, disk: Disk) returns (p: string)
    requires rest != {}
    ensures p in rest && forall q | q in rest :: TimeOf(disk, p) <= TimeOf(disk, q)
  {
    hide TimeOf;
    p := Member(rest);
    var others := rest - {p};
    assert rest == others + {p};
    if others != {} {
      var older := Oldest(others, disk);
      p := if TimeOf(disk, older) <= TimeOf(disk, p) then older else p;
    }
  }

  lemma OmitFirst(order: seq<string>)
    requires Distinct(order) && order != []
    ensures Omit(order, order[0]) == order[1..]
    decreases |order|
  {
    var n := |order| - 1;
    if n > 0 {
      OmitFirst(order[..n]);
      assert order[..n][1..] + [order[n]] == order[1..];
    }
  }

  class Cache {
    const maxBytes: int
    /** File system calls never fail. */
    const reliable: bool
    const digest: string -> string
    var disk: Disk
    var clock: int
    var seeded: bool
    var seedFailed: bool
    var order: seq<string>
    var byPath: map<string, nat>
    var total: int

    function PathFor(key: string): (path: string)
      ensures !IsTemp(path)
    {
      assert (digest(key) + ".bin")[|digest(key)|..] == ".bin";
      digest(key) + ".bin"
    }

    ghost function Ix(): Index
      reads this
    {
      Index(order, byPath, total)
    }

    ghost predicate Valid()
      reads this
    {
      && Exact(Ix())
      && (!seeded || seedFailed ==> order == [])
      && (forall path | path in disk :: disk[path].time <= clock)
    }

    /** The index has been seeded and every entry is a file of that size. */
    ghost predicate Sound()
      reads this
    {
      Valid() && seeded && !seedFailed && Backed(Ix(), disk)
    }

    /** The index has been seeded and is a complete account of the disk. */
    ghost predicate Mirrored()
      reads this
    {
      Valid() && seeded && !seedFailed && Mirrors(Ix(), disk, clock)
    }

    /** The file is there and holds the value. */
    ghost predicate Stored(path: string, value: seq<byte>)
      reads this`disk
    {
      path in disk && disk[path].data == value
    }

    ghost function Contents(): Lru.Contents
      reads this
    {
      Recent(order, disk)
    }

    constructor (maxBytes: int, digest: string -> string, disk: Disk, reliable: bool, clock: int)
      requires forall path | path in disk :: disk[path].time <= clock
      ensures Valid() && !seeded && this.disk == disk && this.maxBytes == maxBytes && this.reliable == reliable
    {
      this.maxBytes, this.digest, this.disk, this.reliable, this.clock := maxBytes, digest, disk, reliable, clock;
      seeded, seedFailed, order, byPath, total := false, false, [], map[], 0;
    }

    // ----- File system calls --------------------------------------------------------------------------------

    method Now()
      modifies this`clock
      ensures clock > old(clock)
    {
      var t: int := *;
      clock := if t > clock then t else clock + 1;
    }

    /** A failed write may leave anything at the path. */
    method WriteFile(path: string, data: seq<byte>) returns (ok: bool)
      requires forall p | p in disk :: disk[p].time <= clock
      modifies this`disk, this`clock
      ensures reliable ==> ok
      ensures clock > old(clock) && forall p | p in disk :: disk[p].time <= clock
      ensures disk - {path} == old(disk) - {path}
      ensures ok ==> disk == old(disk)[path := File(data, clock)]
    {
      Now();
      var failed: bool := *;
      ok := reliable || !failed;
      if ok {
        disk := disk[path := File(data, clock)];
      } else {
        var created: bool, written: seq<byte> := *, *;
        disk := if created then disk[path := File(written, clock)] else disk;
      }
    }

    method RemoveFile(path: string) returns (ok: bool)
      modifies this`disk
      ensures reliable ==> ok
      ensures disk == if ok then old(disk) - {path} else old(disk)
    {
      var failed: bool := *;
      ok := reliable || !failed;
      disk := if ok then disk - {path} else disk;
    }

    // ----- The cache ------------------------------------------------------------------------------------------

    /** Index the files of an earlier process, oldest first, once; a directory that cannot be read fails this
        and every later call. */
    method EnsureSeeded() returns (ok: bool)
      requires Valid()
      modifies this`seeded, this`seedFailed, this`order, this`byPath, this`total
      ensures Valid() && seeded && ok == !seedFailed
          && (old(seeded) ==> Ix() == old(Ix()) && seedFailed == old(seedFailed))
      ensures !old(seeded) && ok && (forall path | path in disk :: !IsTemp(path)) ==> Sound()
      ensures !old(seeded) && reliable && (forall path | path in disk :: !IsTemp(path)) ==> ok && Mirrored()
      ensures !old(seeded) && reliable ==> ok && forall path :: path in byPath <==> path in disk
    {
      if !seeded {
        seeded := true;
        var failed: bool := *;
        seedFailed := !reliable && failed;
        if !seedFailed {
          Seed();
        }
      }
      ok := !seedFailed;
    }

    method Seed()
      requires Exact(Ix()) && order == [] && forall path | path in disk :: disk[path].time <= clock
      modifies this`order, this`byPath, this`total
      ensures Exact(Ix()) && Dated(order, disk, clock)
      ensures forall path | path in byPath :: path in disk && byPath[path] == |disk[path].data|
      ensures reliable ==> forall path | path in disk :: path in byPath
    {
      hide Exact, Dated;
      var rest := disk.Keys;
      EmptyIndex(Ix(), disk, clock);
      while rest != {}
        invariant Exact(Ix()) && Dated(order, disk, clock)
        invariant rest <= disk.Keys && forall path | path in byPath :: path in disk && path !in rest
        invariant forall path | path in byPath :: byPath[path] == |disk[path].data|
        invariant forall p, q | p in byPath && q in rest :: TimeOf(disk, p) <= TimeOf(disk, q)
        invariant reliable ==> forall path | path in disk :: path in byPath || path in rest
        decreases |rest|
      {
        var _ := Oldest(rest, disk);
        var path :| path in rest && forall q | q in rest :: TimeOf(disk, path) <= TimeOf(disk, q);
        rest := rest - {path};
        var vanished: bool := *;
        if reliable || !vanished {
          ListFile(path);
        }
      }
    }

    /** A file that is no older than the listed ones is listed behind them. */
    method ListFile(path: string)
      requires Exact(Ix()) && Dated(order, disk, clock) && path in disk && path !in byPath
      requires disk[path].time <= clock && forall p | p in byPath :: TimeOf(disk, p) <= TimeOf(disk, path)
      modifies this`order, this`byPath, this`total
      ensures Exact(Ix()) && Dated(order, disk, clock)
      ensures byPath == old(byPath)[path := |disk[path].data|]
    {
      hide Exact, Dated;
      var size := |disk[path].data|;
      AppendKeeps(Ix(), path, size);
      AppendDated(Ix(), disk, clock, path);
      order := order + [path];
      byPath := byPath[path := size];
      total := total + size;
    }

    /** Read a file; a hit becomes the most recent. */
    method Get(key: string) returns (ok: bool, found: Lru.Option<seq<byte>>)
      requires Valid()
      modifies this
      ensures Valid() && (old(Sound()) ==> Sound())
      ensures ok ==> found == if PathFor(key) in old(disk) then Lru.Some(old(disk)[PathFor(key)].data) else Lru.None
      ensures !ok ==> found.None?
      ensures reliable && old(Mirrored()) ==>
        && ok && Mirrored() && found == Lru.Find(old(Contents()), PathFor(key))
        && Contents() == Lru.Apply(old(Contents()), Lru.Get(PathFor(key)), maxBytes)
    {
      hide Exact, Dated, Recent, Backed, Lru.Find, Lru.Without;
      found := Lru.None;
      ok := EnsureSeeded();
      var unreadable: bool := *;
      ok := ok && (reliable || !unreadable);
      var path := PathFor(key);
      MirroredFinds(Ix(), disk, clock, path);
      if ok && path in disk {
        found := Lru.Some(disk[path].data);
        MarkUsed(path);
      }
    }

    /** Refresh the modification time, which may fail, and move the path to the recent end of the order. */
    method MarkUsed(path: string)
      requires Valid() && path in disk && !IsTemp(path)
      requires seeded && !seedFailed
      modifies this`disk, this`clock, this`order
      ensures Valid() && (old(Sound()) ==> Sound())
      ensures reliable && old(Mirrored()) ==>
        && Mirrored()
        && Contents() == [Lru.Entry(path, old(disk)[path].data)] + Lru.Without(old(Contents()), path)
    {
      hide Exact, Dated, Recent, Backed, Run, Omit;
      ghost var before, wasClock := disk, clock;
      Now();
      var failed: bool := *;
      if reliable || !failed {
        disk := disk[path := File(disk[path].data, clock)];
      }
      TouchKeeps(Ix(), path);
      TouchSound(Ix(), before, path, clock);
      TouchRuns(Ix(), path);
      if Mirrors(Ix(), before, wasClock) {
        TouchedMirrors(Ix(), before, wasClock, path, clock);
      }
      if path in byPath {
        order := Omit(order, path) + [path];
      }
    }

    /** Write to a temporary file, rename it into place, list the path as the most recent, then trim. */
    method Put(key: string, value: seq<byte>) returns (ok: bool)
      requires Valid()
      modifies this
      ensures Valid() && (old(Sound()) ==> Sound())
      ensures reliable && old(Mirrored()) ==>
        && ok && Mirrored()
        && Contents() == Lru.Apply(old(Contents()), Lru.Put(PathFor(key), value), maxBytes)
      ensures ok && PathFor(key) in byPath ==> Stored(PathFor(key), value)
    {
      hide Exact, Dated, Recent, Backed, Lru.Fit, Lru.Without;
      ok := EnsureSeeded();
      var noDirectory: bool := *;
      ok := ok && (reliable || !noDirectory);
      if ok {
        ok := Store(PathFor(key), value);
      }
      if ok {
        ok := Trim();
      }
    }

    method Store(path: string, value: seq<byte>) returns (ok: bool)
      requires Valid() && seeded && !seedFailed && !IsTemp(path)
      modifies this`disk, this`clock, this`order, this`byPath, this`total
      ensures Valid() && (old(Sound()) ==> Sound())
      ensures reliable && old(Mirrored()) ==>
        && ok && Mirrored() && Contents() == [Lru.Entry(path, value)] + Lru.Without(old(Contents()), path)
      ensures ok ==> path in byPath && Stored(path, value)
      ensures !ok ==> Ix() == old(Ix()) && disk - {TempOf(path)} == old(disk) - {TempOf(path)}
    {
      hide Exact, Dated, Recent, Run, Omit, Backed;
      ghost var before, wasClock := disk, clock;
      TempIsTemp(path);
      ok := WriteFile(TempOf(path), value);
      BackedApart(Ix(), before, disk, TempOf(path));
      if !ok {
        return;
      }
      ok := MoveFile(TempOf(path), path);
      if !ok {
        BackedApart(Ix(), disk, disk - {TempOf(path)}, TempOf(path));
        var _ := RemoveFile(TempOf(path));
        return;
      }
      ListKeeps(Ix(), path, |value|);
      ListRuns(Ix(), path, |value|);
      RenamedMirrors(Ix(), before, wasClock, path, File(value, clock), disk);
      total := total + |value| - if path in byPath then byPath[path] else 0;
      order, byPath := Omit(order, path) + [path], byPath[path := |value|];
    }

    method MoveFile(from: string, to: string) returns (ok: bool)
      requires from in disk && from != to
      modifies this`disk
      ensures reliable ==> ok
      ensures disk == if ok then (old(disk) - {from})[to := old(disk)[from]] else old(disk)
    {
      var failed: bool := *;
      ok := reliable || !failed;
      disk := if ok then (disk - {from})[to := disk[from]] else disk;
    }

    /** Forget a path, then delete its file; a missing file is not an error. */
    method Delete(key: string) returns (ok: bool)
      requires Valid()
      modifies this
      ensures Valid() && (old(Sound()) ==> Sound())
      ensures reliable && old(Mirrored()) ==>
        && ok && Mirrored()
        && Contents() == Lru.Apply(old(Contents()), Lru.Remove(PathFor(key)), maxBytes)
      ensures ok ==> PathFor(key) !in disk && PathFor(key) !in byPath
    {
      hide Exact, Dated, Recent, Backed, Lru.Without;
      ok := EnsureSeeded();
      if ok {
        ok := Forget(PathFor(key));
      }
    }

    /** Take a path out of the index and then off the disk. */
    method Forget(path: string) returns (ok: bool)
      requires Valid() && seeded && !seedFailed
      modifies this`disk, this`order, this`byPath, this`total
      ensures Valid() && (old(Sound()) ==> Sound())
      ensures Ix() == Dropped(old(Ix()), path)
      ensures ok ==> path !in disk
      ensures disk == old(disk) || disk == old(disk) - {path}
      ensures reliable && old(Mirrored()) ==>
        && ok && Mirrored() && disk == old(disk) - {path} && Contents() == Lru.Without(old(Contents()), path)
    {
      hide Exact, Dated, Recent, Omit;
      DropKeeps(Ix(), path);
      if Backed(Ix(), disk) {
        DroppedBacked(Ix(), disk, path);
      }
      if Mirrors(Ix(), disk, clock) {
        DroppedMirrors(Ix(), disk, clock, path);
      }
      if path in byPath {
        order, byPath, total := Omit(order, path), byPath - {path}, total - byPath[path];
      }
      ok := RemoveFile(path);
    }

    /** Evict the least recently used paths until the total fits; failures to delete go unnoticed. */
    method Trim() returns (ok: bool)
      requires Valid()
      modifies this
      ensures Valid() && (old(Sound()) ==> Sound())
      ensures ok && maxBytes > 0 ==> total <= maxBytes
      ensures reliable && old(Mirrored()) ==>
        && ok && Mirrored() && Contents() == Lru.Fit(old(Contents()), maxBytes)
      ensures old(seeded) ==> forall path | path in byPath && path in old(disk) ::
        path in disk && disk[path] == old(disk)[path]
    {
      hide Exact, Dated, Recent, Backed, Lru.Fit, Lru.Without;
      ok := true;
      if maxBytes <= 0 {
        Lru.FitUnlimited(Contents(), maxBytes);
        return;
      }
      ok := EnsureSeeded();
      if !ok {
        return;
      }
      while total > maxBytes && order != []
        invariant Valid() && seeded && !seedFailed && (old(Sound()) ==> Sound())
        invariant forall path | path in byPath && path in old(disk) :: path in disk && disk[path] == old(disk)[path]
        invariant reliable && old(Mirrored()) ==>
          Mirrored() && Lru.Fit(Contents(), maxBytes) == Lru.Fit(old(Contents()), maxBytes)
        decreases |order|
      {
        if Mirrors(Ix(), disk, clock) {
          EvictMirrors(Ix(), disk, clock, maxBytes);
        }
        FrontDropped(Ix());
        var _ := Forget(order[0]);
      }
      if Mirrors(Ix(), disk, clock) {
        FitsAlready(Ix(), disk, clock, maxBytes);
      }
      if order == [] {
        EmptyIndex(Ix(), disk, clock);
      }
    }

    method Stats() returns (ok: bool, files: nat, bytes: int)
      requires Valid()
      modifies this`seeded, this`seedFailed, this`order, this`byPath, this`total
      ensures Valid() && (old(seeded) && !old(seedFailed) ==> ok && Ix() == old(Ix()) && seeded && !seedFailed)
      ensures ok ==> seeded && !seedFailed && files == |order| && bytes == total
      ensures reliable && old(Mirrored()) ==> ok
    {
      ok := EnsureSeeded();
      files, bytes := if ok then |order| else 0, if ok then total else 0;
    }

    /** A manual trim: what it reports as deleted is what left the cache, and every listed file that left is
        gone from the disk. */
    method Prune() returns (ok: bool, deletedFiles: int, deletedBytes: int)
      requires Valid()
      modifies this
      ensures Valid() && (old(Sound()) ==> Sound())
      ensures reliable && old(Mirrored()) ==>
        && ok && Mirrored() && Contents() == Lru.Fit(old(Contents()), maxBytes)
        && Contents() <= old(Contents())
        && deletedFiles == |old(Contents())[|Contents()|..]|
        && deletedBytes == Lru.Size(old(Contents())[|Contents()|..])
    {
      hide Exact, Dated, Recent, Backed, Lru.Fit, Lru.Without;
      deletedFiles, deletedBytes := 0, 0;
      var filesBefore, bytesBefore, filesAfter, bytesAfter;
      ghost var was, before := Ix(), disk;
      ok, filesBefore, bytesBefore := Stats();
      if !ok {
        return;
      }
      ok := Trim();
      if !ok {
        return;
      }
      ok, filesAfter, bytesAfter := Stats();
      if !ok {
        return;
      }
      if reliable && old(Mirrored()) {
        MirroredCounts(was, before, old(clock));
        MirroredCounts(Ix(), disk, clock);
        Lru.FitIsLongestPrefix(old(Contents()), maxBytes);
        SuffixCounts(old(Contents()), Contents());
      }
      deletedFiles := if filesBefore > filesAfter then filesBefore - filesAfter else 0;
      deletedBytes := if bytesBefore > bytesAfter then bytesBefore - bytesAfter else 0;
    }
  }

  /** After the write and the rename, listing the path makes up for both. */
  lemma RenamedMirrors(ix: Index, before: Disk, clock: int, path: string, file: File, disk: Disk)
    requires clock < file.time && !IsTemp(path)
    requires disk == (before[TempOf(path) := file] - {TempOf(path)})[path := file]
    ensures Backed(ix, before) ==> Backed(Run(ix, List(path, |file.data|)), disk)
    ensures Mirrors(ix, before, clock) ==>
      && Mirrors(Run(ix, List(path, |file.data|)), disk, file.time)
      && Recent(Run(ix, List(path, |file.data|)).order, disk) ==
           [Lru.Entry(path, file.data)] + Lru.Without(Recent(ix.order, before), path)
  {
    hide Exact, Dated, Recent, Run;
    TempIsTemp(path);
    if Backed(ix, before) {
      StoredBacked(ix, before, path, file);
      BackedApart(Run(ix, List(path, |file.data|)), before[path := file], disk, TempOf(path));
    }
    if Mirrors(ix, before, clock) {
      assert TempOf(path) !in before;
      assert disk == before[path := file];
      StoredMirrors(ix, before, clock, path, file);
    }
  }

  /** Every indexed path is a file of the indexed size. */
  predicate Accurate(ix: Index, disk: Disk) {
    forall path | path in ix.sizes :: path in disk && |disk[path].data| == ix.sizes[path]
  }

  /** Why no temporary file may be indexed: seeding lists whatever an interrupted put left behind, and then
      the next put of that key keeps the index accurate exactly when its temporary file is not listed. */
  lemma LeftoverTempDrifts(ix: Index, before: Disk, path: string, file: File)
    requires Exact(ix) && Accurate(ix, before)
    ensures var disk := (before[TempOf(path) := file] - {TempOf(path)})[path := file];
      Accurate(Run(ix, List(path, |file.data|)), disk) <==> TempOf(path) !in ix.sizes
  {
    hide Exact;
    var disk := (before[TempOf(path) := file] - {TempOf(path)})[path := file];
    ListRuns(ix, path, |file.data|);
    assert |TempOf(path)| == |path| + 4;
    assert TempOf(path) !in disk;
    forall p | p in before && p != TempOf(path) && p != path ensures p in disk && disk[p] == before[p] {
    }
  }

  lemma MirroredCounts(ix: Index, disk: Disk, clock: int)
    requires Mirrors(ix, disk, clock)
    ensures |Recent(ix.order, disk)| == |ix.order| && Lru.Size(Recent(ix.order, disk)) == ix.total
  {
    RecentSize(ix.order, ix.sizes, disk);
  }

  lemma SuffixCounts(all: Lru.Contents, kept: Lru.Contents)
    requires kept <= all
    ensures |all[|kept|..]| == |all| - |kept|
    ensures Lru.Size(all[|kept|..]) == Lru.Size(all) - Lru.Size(kept)
  {
    assert all == kept + all[|kept|..];
    Lru.SizeSplit(kept, all[|kept|..]);
  }

  lemma FrontDropped(ix: Index)
    requires Exact(ix) && ix.order != []
    ensures ix.order[0] in ix.sizes && Dropped(ix, ix.order[0]).order == ix.order[1..]
  {
    assert ix.order[0] in ix.order;
    OmitFirst(ix.order);
  }

  lemma TempIsTemp(path: string)
    ensures IsTemp(TempOf(path))
  {
    assert TempOf(path)[|TempOf(path)| - 4..] == ".tmp";
  }

  /** What happens at a temporary path is no business of the index. */
  lemma BackedApart(ix: Index, disk: Disk, other: Disk, path: string)
    requires IsTemp(path) && disk - {path} == other - {path}
    ensures Backed(ix, disk) ==> Backed(ix, other)
  {
    if Backed(ix, disk) {
      forall p | p in ix.sizes ensures p in other && |other[p].data| == ix.sizes[p] {
        assert p in disk - {path};
        assert (disk - {path})[p] == (other - {path})[p];
      }
    }
  }

  lemma ListRuns(ix: Index, path: string, size: nat)
    ensures Run(ix, List(path, size)) ==
      Index(Omit(ix.order, path) + [path], ix.sizes[path := size],
            ix.total + size - if path in ix.sizes then ix.sizes[path] else 0)
  {
  }

  lemma TouchedMirrors(ix: Index, disk: Disk, clock: int, path: string, time: int)
    requires Mirrors(ix, disk, clock) && clock < time && path in disk
    ensures var after, touched := disk[path := File(disk[path].data, time)], Run(ix, Touch(path));
      && Mirrors(touched, after, time)
      && Recent(touched.order, after) == [Lru.Entry(path, disk[path].data)] + Lru.Without(Recent(ix.order, disk), path)
  {
    hide Exact, Dated, Recent, Run;
    TouchIsList(ix, path);
    StoredMirrors(ix, disk, clock, path, File(disk[path].data, time));
  }

  lemma MirroredFinds(ix: Index, disk: Disk, clock: int, path: string)
    requires Exact(ix)
    ensures Mirrors(ix, disk, clock) ==>
      Lru.Find(Recent(ix.order, disk), path) == if path in disk then Lru.Some(disk[path].data) else Lru.None
  {
    RecentFinds(ix.order, disk, path);
  }

  lemma TouchRuns(ix: Index, path: string)
    ensures Run(ix, Touch(path)) == if path in ix.sizes then ix.(order := Omit(ix.order, path) + [path]) else ix
  {
  }

  lemma TouchSound(ix: Index, disk: Disk, path: string, time: int)
    requires path in disk
    ensures Backed(ix, disk) ==>
              Backed(Run(ix, Touch(path)), disk) &&
              Backed(Run(ix, Touch(path)), disk[path := File(disk[path].data, time)])
  {
  }

  lemma EmptyIndex(ix: Index, disk: Disk, clock: int)
    requires Exact(ix) && ix.order == []
    ensures ix.sizes == map[] && ix.total == 0 && Dated(ix.order, disk, clock)
  {
    assert forall p | p in ix.sizes :: p in ix.order;
  }

  lemma AppendDated(ix: Index, disk: Disk, clock: int, path: string)
    requires Exact(ix) && Dated(ix.order, disk, clock) && TimeOf(disk, path) <= clock
    requires forall p | p in ix.sizes :: TimeOf(disk, p) <= TimeOf(disk, path)
    ensures Dated(ix.order + [path], disk, clock)
  {
    assert forall i | 0 <= i < |ix.order| :: ix.order[i] in ix.order;
  }
}
