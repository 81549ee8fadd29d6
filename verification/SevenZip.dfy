/** Byte layout of a file inside a multi-volume 7z archive: `folderOffset`, `splitArchiveRange` and the
    offsets that `entry` composes from them. The arithmetic is done on 64-bit types, so that no step
    wraps around is checked at each one. */
module SevenZip {
  import A = ArchiveRanges
  import opened Machine
  import opened Bytes

  datatype Result<+T> = Ok(value: T) | HeadersInvalid | Encrypted | CompressionUnsupported

  // ----- folderOffset ------------------------------------------------------------------------------

  /** The total of the first `n` sizes. */
  function Total(sizes: seq<uint64>, n: nat): int
    requires n <= |sizes|
  {
    if n == 0 then 0 else Total(sizes, n - 1) + sizes[n - 1] as int
  }

  lemma {:induction false} TotalMonotone(sizes: seq<uint64>, m: nat, n: nat)
    requires m <= n <= |sizes|
    ensures 0 <= Total(sizes, m) <= Total(sizes, n)
  {
    if m < n {
      TotalMonotone(sizes, m, n - 1);
    } else if n > 0 {
      TotalMonotone(sizes, n - 1, n - 1);
    }
  }

  /** The packed streams of the folders before `folder` are all in the table, and the offset they add up
      to is an int64. */
  predicate OffsetDefined(packPosition: uint64, packSizes: seq<uint64>, streams: seq<uint64>, folder: int) {
    && packPosition as int <= MAX_INT64 && 0 <= folder <= |streams|
    && Total(streams, folder) <= |packSizes|
    && packPosition as int + Total(packSizes, TotalNat(streams, folder)) <= MAX_INT64
  }

  function TotalNat(streams: seq<uint64>, n: nat): nat
    requires n <= |streams|
  {
    TotalMonotone(streams, 0, n);
    Total(streams, n)
  }

  /** The offset of a folder's packed data: `packPosition` plus every packed stream of the folders
      before it. It is reported exactly when those streams exist and the sum is an int64. */
  method FolderOffset(packPosition: uint64, packSizes: seq<uint64>, streams: seq<uint64>, folder: int)
    returns (offset: int64, ok: bool)
    requires |packSizes| <= MAX_INT64
    ensures ok <==> OffsetDefined(packPosition, packSizes, streams, folder)
    ensures ok ==> offset as int == packPosition as int + Total(packSizes, TotalNat(streams, folder))
  {
    if packPosition as int > MAX_INT64 || folder < 0 || folder > |streams| {
      return 0, false;
    }
    var total := packPosition;
    var packedOffset: int64 := 0;
    for i := 0 to folder
      invariant packedOffset as int == Total(streams, i) <= |packSizes|
      invariant total as int == packPosition as int + Total(packSizes, TotalNat(streams, i)) <= MAX_INT64
    {
      var rawPackedStreams := streams[i];
      TotalMonotone(streams, i + 1, folder);
      if rawPackedStreams as int > MAX_INT64 || packedOffset > |packSizes| as int64 - rawPackedStreams as int64 {
        return 0, false;
      }
      var packedStreams := rawPackedStreams as int64;
      for j := 0 to packedStreams
        invariant total as int == packPosition as int + Total(packSizes, packedOffset as int + j as int) <= MAX_INT64
      {
        var size := packSizes[packedOffset as int + j as int];
        TotalMonotone(packSizes, packedOffset as int + j as int + 1, TotalNat(streams, i + 1));
        if size > MAX_INT64 as uint64 - total {
          if OffsetDefined(packPosition, packSizes, streams, folder) {
            TotalMonotone(packSizes, TotalNat(streams, i + 1), TotalNat(streams, folder));
          }
          return 0, false;
        }
        total := total + size;
      }
      packedOffset := packedOffset + packedStreams;
    }
    return total as int64, true;
  }

  // ----- splitArchiveRange ---------------------------------------------------------------------------

  type VolumeSizes = map<int, int64>

  /** The bytes in the volumes before `v`, in the archive formed by all volumes in order. */
  function Start(sizes: VolumeSizes, v: nat): int {
    if v == 0 then 0 else Start(sizes, v - 1) + if v - 1 in sizes then sizes[v - 1] as int else 0
  }

  /** The first `n` volumes are all known, none has a negative size, and their total is an int64. */
  predicate Usable(sizes: VolumeSizes, n: nat) {
    (forall v | 0 <= v < n :: v in sizes && sizes[v] >= 0) && Start(sizes, n) <= MAX_INT64
  }

  lemma {:induction false} StartMonotone(sizes: VolumeSizes, m: nat, n: nat)
    requires m <= n && forall v | 0 <= v < n :: v in sizes && sizes[v] >= 0
    ensures 0 <= Start(sizes, m) <= Start(sizes, n)
  {
    if m < n {
      StartMonotone(sizes, m, n - 1);
    } else if n > 0 {
      StartMonotone(sizes, n - 1, n - 1);
    }
  }

  /** One range, holding the file from byte `at` on: it lies inside its volume, its bytes stand at
      archiveOffset + at in the archive, and it is as long as the volume and the file allow. */
  ghost predicate Placed(r: A.ArchiveRange, sizes: VolumeSizes, archiveOffset: int, at: int, size: int) {
    && r.entryOffset == at && r.volumeIndex >= 0 && Usable(sizes, r.volumeIndex + 1)
    && Start(sizes, r.volumeIndex) + r.archiveOffset == archiveOffset + at
    && 0 <= r.archiveOffset < sizes[r.volumeIndex] as int
    && r.lengthBytes == A.Min(size - at, sizes[r.volumeIndex] as int - r.archiveOffset) > 0
  }

  /** The ranges hold bytes [at, to) of a file of the given size, in order. */
  ghost predicate Split(ranges: seq<A.ArchiveRange>, sizes: VolumeSizes, archiveOffset: int, at: int, to: int,
                        size: int) {
    if ranges == [] then at == to
    else
      && Placed(ranges[0], sizes, archiveOffset, at, size)
      && Split(ranges[1..], sizes, archiveOffset, at + ranges[0].lengthBytes, to, size)
  }

  lemma SplitNothing(sizes: VolumeSizes, archiveOffset: int, size: int)
    ensures Split([], sizes, archiveOffset, 0, 0, size)
  {
  }

  lemma {:induction false} SplitAppend(ranges: seq<A.ArchiveRange>, sizes: VolumeSizes, archiveOffset: int, at: int,
                                       to: int, size: int, r: A.ArchiveRange)
    requires Split(ranges, sizes, archiveOffset, at, to, size) && Placed(r, sizes, archiveOffset, to, size)
    ensures Split(ranges + [r], sizes, archiveOffset, at, to + r.lengthBytes, size)
  {
    if ranges == [] {
      assert (ranges + [r])[1..] == [];
    } else {
      SplitAppend(ranges[1..], sizes, archiveOffset, at + ranges[0].lengthBytes, to, size, r);
      assert (ranges + [r])[1..] == ranges[1..] + [r];
    }
  }

  /** The file's bytes lie inside the archive: some first volumes are usable and reach its end. */
  ghost predicate Reachable(sizes: VolumeSizes, end: int) {
    exists n: nat :: Usable(sizes, n) && Start(sizes, n) >= end
  }

  /** No further volume helps once volume `v` is missing or unusable and those before it fall short. */
  lemma NotReachable(sizes: VolumeSizes, v: nat, end: int)
    requires Usable(sizes, v) && Start(sizes, v) < end && !Usable(sizes, v + 1)
    ensures !Reachable(sizes, end)
  {
    forall n: nat | Usable(sizes, n) ensures Start(sizes, n) < end {
      if n <= v {
        StartMonotone(sizes, n, v);
      } else {
        StartMonotone(sizes, v + 1, n);
      }
    }
  }

  /** When the first v + 1 volumes are usable, given that the first `v` are. */
  lemma UsableStep(sizes: VolumeSizes, v: nat)
    ensures Start(sizes, 0) == 0 && Usable(sizes, 0)
    ensures v in sizes ==> Start(sizes, v + 1) == Start(sizes, v) + sizes[v] as int
    ensures Usable(sizes, v) ==>
      (Usable(sizes, v + 1) <==> v in sizes && sizes[v] >= 0 && Start(sizes, v) + sizes[v] as int <= MAX_INT64)
    ensures Usable(sizes, v + 1) ==> v + 1 <= |sizes|
  {
    if Usable(sizes, v + 1) {
      KeysBelow(sizes, v + 1);
    }
  }

  lemma PlacedItem(r: A.ArchiveRange, sizes: VolumeSizes, archiveOffset: int, size: int)
    requires r.volumeIndex >= 0 && Usable(sizes, r.volumeIndex + 1)
    requires r.volumeIndex in sizes && 0 <= r.archiveOffset < sizes[r.volumeIndex] as int
    requires Start(sizes, r.volumeIndex) + r.archiveOffset == archiveOffset + r.entryOffset
    requires r.lengthBytes == A.Min(size - r.entryOffset, sizes[r.volumeIndex] as int - r.archiveOffset) > 0
    ensures Placed(r, sizes, archiveOffset, r.entryOffset, size)
  {
  }

  lemma {:induction false} KeysBelow(sizes: VolumeSizes, v: nat)
    requires forall i | 0 <= i < v :: i in sizes
    ensures v <= |sizes|
    decreases v
  {
    if v > 0 {
      var rest := sizes - {v - 1};
      assert forall i | 0 <= i < v - 1 :: i in rest;
      KeysBelow(rest, v - 1);
      assert |sizes.Keys| == |rest.Keys| + 1 by {
        assert sizes.Keys == rest.Keys + {v - 1};
      }
    }
  }

  /** How many bytes of the file lie before archive position `current`. */
  function Held(current: int, archiveOffset: int, size: int): int {
    if current <= archiveOffset then 0 else A.Min(current - archiveOffset, size)
  }

  /** Split the file's bytes over the volumes. It succeeds exactly on a non-negative, representable
      interval that the usable volumes contain, and then holds every byte of the file, each at its place. */
  method SplitArchiveRange(sizes: VolumeSizes, archiveOffset: int64, size: int64)
      returns (result: Result<seq<A.ArchiveRange>>)
    ensures result.Ok? <==>
      && archiveOffset >= 0 && size >= 0 && archiveOffset as int + size as int <= MAX_INT64
      && (size > 0 ==> Reachable(sizes, archiveOffset as int + size as int))
    ensures result.Ok? ==> Split(result.value, sizes, archiveOffset as int, 0, size as int, size as int)
  {
    if archiveOffset < 0 || size < 0 || archiveOffset > MAX_INT64 as int64 - size {
      return HeadersInvalid;
    }
    SplitNothing(sizes, archiveOffset as int, size as int);
    if size == 0 {
      return Ok([]);
    }
    hide Split, Placed, Usable, Start;
    UsableStep(sizes, 0);
    var ranges: seq<A.ArchiveRange> := [];
    var entryOffset: int64, current: int64 := 0, 0;
    var volumeIndex: nat := 0;
    while true
      invariant Usable(sizes, volumeIndex) && current as int == Start(sizes, volumeIndex) && current >= 0
      invariant 0 <= entryOffset < size && entryOffset as int == Held(current as int, archiveOffset as int, size as int)
      invariant Split(ranges, sizes, archiveOffset as int, 0, entryOffset as int, size as int)
      decreases |sizes| - volumeIndex
    {
      UsableStep(sizes, volumeIndex);
      if volumeIndex !in sizes {
        NotReachable(sizes, volumeIndex, archiveOffset as int + size as int);
        break;
      }
      var volumeSize := sizes[volumeIndex];
      if volumeSize < 0 || current > MAX_INT64 as int64 - volumeSize {
        NotReachable(sizes, volumeIndex, archiveOffset as int + size as int);
        return HeadersInvalid;
      }
      var volumeStart := current;
      var volumeEnd := volumeStart + volumeSize;
      current := volumeEnd;
      if archiveOffset >= volumeEnd {
        volumeIndex := volumeIndex + 1;
        continue;
      }
      var found, localStart, length := VolumeShare(volumeStart, volumeSize, archiveOffset, size, entryOffset);
      if !found {
        volumeIndex := volumeIndex + 1;
        continue;
      }
      var item := A.ArchiveRange(volumeIndex, entryOffset as int, localStart as int, length as int);
      PlacedItem(item, sizes, archiveOffset as int, size as int);
      SplitAppend(ranges, sizes, archiveOffset as int, 0, entryOffset as int, size as int, item);
      ranges := ranges + [item];
      entryOffset := entryOffset + length;
      if entryOffset == size {
        return Ok(ranges);
      }
      volumeIndex := volumeIndex + 1;
    }
    return HeadersInvalid;
  }

  /** One volume's share of the file: where it starts in the volume and how long it is. */
  method VolumeShare(volumeStart: int64, volumeSize: int64, archiveOffset: int64, size: int64, entryOffset: int64)
    returns (found: bool, localStart: int64, length: int64)
    requires 0 <= volumeStart && 0 <= volumeSize && volumeStart as int + volumeSize as int <= MAX_INT64
    requires 0 <= archiveOffset as int < volumeStart as int + volumeSize as int
    requires 0 <= entryOffset < size
        && entryOffset as int == Held(volumeStart as int, archiveOffset as int, size as int)
    ensures found <==> volumeSize > 0
    ensures found ==>
      && volumeStart as int + localStart as int == archiveOffset as int + entryOffset as int
      && 0 <= localStart < volumeSize
      && length as int == A.Min(size as int - entryOffset as int, volumeSize as int - localStart as int) > 0
    ensures Held(volumeStart as int + volumeSize as int, archiveOffset as int, size as int)
         == entryOffset as int + if found then length as int else 0
  {
    localStart := archiveOffset - volumeStart;
    if localStart < 0 {
      localStart := 0;
    }
    var available := volumeSize - localStart;
    length := 0;
    if available <= 0 {
      return false, localStart, length;
    }
    length := size - entryOffset;
    if length > available {
      length := available;
    }
    found := true;
  }

  /** Split ranges are a complete mapping of the file. */
  lemma {:induction false} SplitCovers(ranges: seq<A.ArchiveRange>, sizes: VolumeSizes, archiveOffset: int, at: int,
                                       size: int)
    requires Split(ranges, sizes, archiveOffset, at, size, size)
    ensures A.Covers(ranges, at, size)
  {
    if ranges != [] {
      SplitCovers(ranges[1..], sizes, archiveOffset, at + ranges[0].lengthBytes, size);
    }
  }

  /** Byte `p` of the file, found in range `k`, is byte archiveOffset + p of the volumes taken in order. */
  lemma {:induction false} SplitLocates(ranges: seq<A.ArchiveRange>, sizes: VolumeSizes, archiveOffset: int, at: int,
                                        size: int, k: nat, p: int)
    requires Split(ranges, sizes, archiveOffset, at, size, size) && k < |ranges|
    requires ranges[k].entryOffset <= p < ranges[k].entryOffset + ranges[k].lengthBytes
    ensures var r := ranges[k]; var inVolume := r.archiveOffset + (p - r.entryOffset);
      && r.volumeIndex >= 0 && r.volumeIndex in sizes && 0 <= inVolume < sizes[r.volumeIndex] as int
      && Start(sizes, r.volumeIndex) + inVolume == archiveOffset + p
  {
    if k > 0 {
      SplitLocates(ranges[1..], sizes, archiveOffset, at + ranges[0].lengthBytes, size, k - 1, p);
    }
  }

  // ----- Agreement with the RAR walk ------------------------------------------------------------------

  function AsInts(sizes: VolumeSizes): map<int, int> {
    map v | v in sizes :: sizes[v] as int
  }

  /** Each range sits in the volume right after the one before it. */
  ghost predicate Consecutive(ranges: seq<A.ArchiveRange>) {
    |ranges| > 1 ==> ranges[1].volumeIndex == ranges[0].volumeIndex + 1 && Consecutive(ranges[1..])
  }

  /** The position right after volume `v`, when it lies inside volume `u`: either u is the next volume,
      entered at its start, or the next volume is empty. */
  lemma NextVolume(sizes: VolumeSizes, v: nat, u: nat, offset: int)
    requires Usable(sizes, v + 1) && Usable(sizes, u + 1)
    requires Start(sizes, u) + offset == Start(sizes, v + 1) && 0 <= offset < sizes[u] as int
    ensures if u == v + 1 then offset == 0 else v + 1 in sizes && sizes[v + 1] == 0
  {
    if u <= v {
      StartMonotone(sizes, u + 1, v + 1);
    } else if u > v + 1 {
      StartMonotone(sizes, v + 2, u);
    }
  }

  /** From the volume of the first range on, the RAR walk assigns exactly the split ranges when they sit
      in consecutive volumes, and gives up when they do not. */
  lemma {:induction false} SplitAssignedExactly(ranges: seq<A.ArchiveRange>, sizes: VolumeSizes, archiveOffset: int,
                                                at: int, size: int, first: int)
    requires Split(ranges, sizes, archiveOffset, at, size, size) && ranges != []
    ensures A.AssignFrom(AsInts(sizes), map[], first, ranges[0].volumeIndex, ranges[0].archiveOffset, at, size - at)
         == if Consecutive(ranges) then A.Some(ranges) else A.None
    decreases |ranges|
  {
    var r, rest := ranges[0], ranges[1..];
    var walked := A.AssignFrom(AsInts(sizes), map[], first, r.volumeIndex + 1, 0, at + r.lengthBytes,
                               size - at - r.lengthBytes);
    assert A.AssignFrom(AsInts(sizes), map[], first, r.volumeIndex, r.archiveOffset, at, size - at)
        == A.Prepend([r], walked);
    if rest != [] {
      RestFollows(ranges, sizes, archiveOffset, at, size);
      if rest[0].volumeIndex == r.volumeIndex + 1 {
        SplitAssignedExactly(rest, sizes, archiveOffset, at + r.lengthBytes, size, first);
        assert [r] + rest == ranges;
      }
    } else {
      assert [r] + [] == ranges;
    }
  }

  lemma RestFollows(ranges: seq<A.ArchiveRange>, sizes: VolumeSizes, archiveOffset: int, at: int, size: int)
    requires Split(ranges, sizes, archiveOffset, at, size, size) && |ranges| > 1
    ensures ranges[0].volumeIndex >= 0 && ranges[0].lengthBytes < size - at
    ensures if ranges[1].volumeIndex == ranges[0].volumeIndex + 1 then ranges[1].archiveOffset == 0
            else ranges[0].volumeIndex + 1 in sizes && sizes[ranges[0].volumeIndex + 1] == 0
  {
    assert Placed(ranges[1..][0], sizes, archiveOffset, at + ranges[0].lengthBytes, size);
    NextVolume(sizes, ranges[0].volumeIndex, ranges[1].volumeIndex, ranges[1].archiveOffset);
  }

  /** An empty volume strictly between two positions of the archive, no volume up to it being unusable. */
  predicate EmptyInside(sizes: VolumeSizes, lo: int, hi: int, v: nat) {
    Usable(sizes, v + 1) && sizes[v] == 0 && lo < Start(sizes, v) < hi
  }

  ghost predicate NoEmptyInside(sizes: VolumeSizes, lo: int, hi: int) {
    forall v: nat :: !EmptyInside(sizes, lo, hi, v)
  }

  /** A first range lies in volume u = ranges[0].volumeIndex; no volume up to u begins inside the file, and
      what follows begins at its end or later. */
  lemma AroundFirst(ranges: seq<A.ArchiveRange>, sizes: VolumeSizes, archiveOffset: int, at: int, size: int, v: nat)
    requires Split(ranges, sizes, archiveOffset, at, size, size) && ranges != []
    requires Usable(sizes, v + 1) && archiveOffset + at < Start(sizes, v)
    ensures var r := ranges[0]; var u := r.volumeIndex;
      && 0 <= u < v && Start(sizes, u + 1) <= Start(sizes, v)
      && archiveOffset + at + r.lengthBytes <= Start(sizes, u + 1)
      && (|ranges| > 1 ==> archiveOffset + at + r.lengthBytes == Start(sizes, u + 1) < archiveOffset + size)
      && (|ranges| == 1 ==> archiveOffset + at + r.lengthBytes == archiveOffset + size)
  {
    var u := ranges[0].volumeIndex;
    if v <= u {
      StartMonotone(sizes, v, u);
    } else {
      StartMonotone(sizes, u + 1, v);
    }
    if |ranges| > 1 {
      assert Placed(ranges[1..][0], sizes, archiveOffset, at + ranges[0].lengthBytes, size);
    }
  }

  /** The volume of the second range is the next one, unless that one is empty. */
  lemma NextIsEmpty(ranges: seq<A.ArchiveRange>, sizes: VolumeSizes, archiveOffset: int, at: int, size: int)
    requires Split(ranges, sizes, archiveOffset, at, size, size) && |ranges| > 1
    ensures var u, w := ranges[0].volumeIndex, ranges[1].volumeIndex;
      && 0 <= u < w && Usable(sizes, w + 1) && sizes[w] > 0
      && (w != u + 1 ==> EmptyInside(sizes, archiveOffset + at, archiveOffset + size, u + 1))
  {
    var u, w := ranges[0].volumeIndex, ranges[1].volumeIndex;
    assert Placed(ranges[1..][0], sizes, archiveOffset, at + ranges[0].lengthBytes, size);
    RestFollows(ranges, sizes, archiveOffset, at, size);
    if w <= u {
      StartMonotone(sizes, w + 1, u + 1);
    } else if w > u + 1 {
      StartMonotone(sizes, u + 2, w + 1);
    }
  }

  /** The split visits consecutive volumes if and only if no empty volume lies inside the file's interval. */
  lemma {:induction false} ConsecutiveExactly(ranges: seq<A.ArchiveRange>, sizes: VolumeSizes, archiveOffset: int,
                                              at: int, size: int)
    requires Split(ranges, sizes, archiveOffset, at, size, size)
    ensures Consecutive(ranges) <==> NoEmptyInside(sizes, archiveOffset + at, archiveOffset + size)
    decreases |ranges|
  {
    hide Placed, EmptyInside, Split, NoEmptyInside;
    if ranges == [] {
      NothingInside(sizes, archiveOffset + size);
      EmptySplit(sizes, archiveOffset, at, size);
    } else {
      var r, rest := ranges[0], ranges[1..];
      var lo, hi := archiveOffset + at, archiveOffset + size;
      SplitRest(ranges, sizes, archiveOffset, at, size);
      ConsecutiveExactly(rest, sizes, archiveOffset, at + r.lengthBytes, size);
      assert archiveOffset + (at + r.lengthBytes) == lo + r.lengthBytes;
      if NoEmptyInside(sizes, lo, hi) {
        FewerInside(sizes, lo, lo + r.lengthBytes, hi);
        if |ranges| > 1 {
          NextIsEmpty(ranges, sizes, archiveOffset, at, size);
          NotInside(sizes, lo, hi, r.volumeIndex + 1);
        }
      } else {
        var v := SomeInside(sizes, lo, hi);
        EmptyBreaks(ranges, sizes, archiveOffset, at, size, v);
        if NoEmptyInside(sizes, lo + r.lengthBytes, hi) {
          NotInside(sizes, lo + r.lengthBytes, hi, v);
        }
      }
    }
  }

  lemma NothingInside(sizes: VolumeSizes, at: int)
    ensures NoEmptyInside(sizes, at, at)
  {
  }

  lemma EmptySplit(sizes: VolumeSizes, archiveOffset: int, at: int, size: int)
    requires Split([], sizes, archiveOffset, at, size, size)
    ensures at == size
  {
  }

  lemma FewerInside(sizes: VolumeSizes, lo: int, mid: int, hi: int)
    requires lo <= mid && NoEmptyInside(sizes, lo, hi)
    ensures NoEmptyInside(sizes, mid, hi)
  {
    forall v: nat ensures !EmptyInside(sizes, mid, hi, v) {
      assert !EmptyInside(sizes, lo, hi, v);
    }
  }

  lemma NotInside(sizes: VolumeSizes, lo: int, hi: int, v: nat)
    requires NoEmptyInside(sizes, lo, hi)
    ensures !EmptyInside(sizes, lo, hi, v)
  {
  }

  lemma SomeInside(sizes: VolumeSizes, lo: int, hi: int) returns (v: nat)
    requires !NoEmptyInside(sizes, lo, hi)
    ensures EmptyInside(sizes, lo, hi, v)
  {
    v :| EmptyInside(sizes, lo, hi, v);
  }

  lemma SplitRest(ranges: seq<A.ArchiveRange>, sizes: VolumeSizes, archiveOffset: int, at: int, size: int)
    requires Split(ranges, sizes, archiveOffset, at, size, size) && ranges != []
    ensures ranges[0].lengthBytes > 0
        && Split(ranges[1..], sizes, archiveOffset, at + ranges[0].lengthBytes, size, size)
  {
  }

  /** An empty volume inside the file either lies behind the first range, or stands between the first two. */
  lemma EmptyBreaks(ranges: seq<A.ArchiveRange>, sizes: VolumeSizes, archiveOffset: int, at: int, size: int, v: nat)
    requires Split(ranges, sizes, archiveOffset, at, size, size) && ranges != []
    requires EmptyInside(sizes, archiveOffset + at, archiveOffset + size, v)
    ensures |ranges| > 1
    ensures EmptyInside(sizes, archiveOffset + at + ranges[0].lengthBytes, archiveOffset + size, v)
            || ranges[1].volumeIndex != ranges[0].volumeIndex + 1
  {
    hide Split, Placed, Usable;
    AroundFirst(ranges, sizes, archiveOffset, at, size, v);
    if |ranges| > 1 {
      NextIsEmpty(ranges, sizes, archiveOffset, at, size);
      if ranges[1].volumeIndex == ranges[0].volumeIndex + 1 {
        NonEmptyAdvances(sizes, ranges[1].volumeIndex, v);
      }
    }
  }

  lemma NonEmptyAdvances(sizes: VolumeSizes, u: nat, v: nat)
    requires u <= v && Usable(sizes, v + 1) && sizes[v] == 0 && Usable(sizes, u + 1) && sizes[u] > 0
    ensures Start(sizes, u) < Start(sizes, v)
  {
    if u == v {
      assert false;
    } else {
      StartMonotone(sizes, u + 1, v);
    }
  }

  lemma AssignedWhenConsecutive(entry: A.ArchiveEntry, sizes: VolumeSizes, archiveOffset: int)
    requires entry.ranges != []
    requires Split(entry.ranges, sizes, archiveOffset, 0, entry.packedSizeBytes, entry.packedSizeBytes)
    requires entry.volumeIndex == entry.ranges[0].volumeIndex && entry.archiveOffset == entry.ranges[0].archiveOffset
    ensures A.Assigned(entry.(ranges := []), AsInts(sizes), map[])
         == if Consecutive(entry.ranges) then entry else entry.(ranges := [])
  {
    hide Split, Consecutive, A.AssignFrom;
    SplitCovers(entry.ranges, sizes, archiveOffset, 0, entry.packedSizeBytes);
    A.CoversForward(entry.ranges, 0, entry.packedSizeBytes);
    SplitFirst(entry.ranges, sizes, archiveOffset, 0, entry.packedSizeBytes);
    SplitAssignedExactly(entry.ranges, sizes, archiveOffset, 0, entry.packedSizeBytes, entry.volumeIndex);
    assert [] + entry.ranges == entry.ranges;
  }

  lemma SplitFirst(ranges: seq<A.ArchiveRange>, sizes: VolumeSizes, archiveOffset: int, at: int, size: int)
    requires Split(ranges, sizes, archiveOffset, at, size, size) && ranges != []
    ensures ranges[0].volumeIndex >= 0 && ranges[0].lengthBytes > 0
  {
  }

  /** Re-assigning a split entry from its own first volume and offset, with no continuation offsets,
      reproduces the entry if and only if no empty volume lies inside the file's interval; otherwise it leaves
      the entry without ranges. */
  lemma SplitAgreesWithAssign(entry: A.ArchiveEntry, sizes: VolumeSizes, archiveOffset: int, end: int)
    requires entry.ranges != [] && end == archiveOffset + entry.packedSizeBytes
    requires Split(entry.ranges, sizes, archiveOffset, 0, entry.packedSizeBytes, entry.packedSizeBytes)
    requires entry.volumeIndex == entry.ranges[0].volumeIndex && entry.archiveOffset == entry.ranges[0].archiveOffset
    ensures A.Assigned(entry.(ranges := []), AsInts(sizes), map[])
         == if NoEmptyInside(sizes, archiveOffset, end) then entry else entry.(ranges := [])
  {
    hide Split, Consecutive, A.Assigned, NoEmptyInside;
    AssignedWhenConsecutive(entry, sizes, archiveOffset);
    ConsecutiveExactly(entry.ranges, sizes, archiveOffset, 0, entry.packedSizeBytes);
    assert archiveOffset + 0 == archiveOffset;
  }

  /** Three volumes of 10, 0 and 10 bytes, and a file of 10 bytes from byte 5 on: the split takes five bytes
      from the first and five from the third volume, and the RAR walk gives up at the second. */
  lemma EmptyVolumeExample(sizes: VolumeSizes)
    requires sizes == map[0 := 10, 1 := 0, 2 := 10]
    ensures Split([GAP_HEAD, GAP_TAIL], sizes, 5, 0, 10, 10) && EmptyInside(sizes, 5, 15, 1)
    ensures A.AssignFrom(AsInts(sizes), map[], 0, 0, 5, 0, 10) == A.None
  {
    hide Split, A.AssignFrom, EmptyInside, Start, Usable;
    assert 0 in sizes && 1 in sizes && 2 in sizes && sizes[0] == 10 && sizes[1] == 0 && sizes[2] == 10;
    GapSplit(sizes);
    SplitAssignedExactly([GAP_HEAD, GAP_TAIL], sizes, 5, 0, 10, 0);
  }

  const GAP_HEAD := A.ArchiveRange(0, 0, 5, 5)
  const GAP_TAIL := A.ArchiveRange(2, 5, 0, 5)

  lemma GapSplit(sizes: VolumeSizes)
    requires 0 in sizes && 1 in sizes && 2 in sizes && sizes[0] == 10 && sizes[1] == 0 && sizes[2] == 10
    ensures Split([GAP_HEAD, GAP_TAIL], sizes, 5, 0, 10, 10) && EmptyInside(sizes, 5, 15, 1)
  {
    hide Usable, Split, Start;
    UsableStep(sizes, 0);
    UsableStep(sizes, 1);
    UsableStep(sizes, 2);
    PlacedItem(GAP_HEAD, sizes, 5, 10);
    PlacedItem(GAP_TAIL, sizes, 5, 10);
    SplitTwo(GAP_HEAD, GAP_TAIL, sizes, 5, 10);
  }

  lemma SplitTwo(r: A.ArchiveRange, next: A.ArchiveRange, sizes: VolumeSizes, archiveOffset: int, size: int)
    requires Placed(r, sizes, archiveOffset, 0, size) && Placed(next, sizes, archiveOffset, r.lengthBytes, size)
    requires r.lengthBytes + next.lengthBytes == size
    ensures Split([r, next], sizes, archiveOffset, 0, size, size)
  {
    hide Placed;
    assert [r, next][1..] == [next] && [next][1..] == [];
    assert Split([next], sizes, archiveOffset, r.lengthBytes, size, size);
  }

  // ----- entry -----------------------------------------------------------------------------------------

  const COPY_CODER: seq<byte> := [0x00]
  const AES_CODER: seq<byte> := [0x06, 0xf1, 0x07, 0x01]

  /** The folder's packed bytes are its file's bytes. */
  predicate Copies(coders: seq<seq<byte>>) { coders == [COPY_CODER] }

  /** Whether any coder of the folder is the encryption coder. */
  method FindEncryption(coders: seq<seq<byte>>) returns (encrypted: bool)
    ensures encrypted <==> AES_CODER in coders
  {
    encrypted := false;
    for i := 0 to |coders|
      invariant encrypted <==> AES_CODER in coders[..i]
    {
      if coders[i] == AES_CODER {
        encrypted := true;
      }
    }
  }

  /** Where the file's bytes stand in the archive: its folder's packed data, and its place in the folder. */
  predicate PlaceDefined(packPosition: uint64, packSizes: seq<uint64>, streams: seq<uint64>, folder: int,
                         offset: int64) {
    && 0 <= folder < |streams| && offset >= 0
    && OffsetDefined(packPosition, packSizes, streams, folder)
  }

  function PlaceOf(packPosition: uint64, packSizes: seq<uint64>, streams: seq<uint64>, folder: int, offset: int64): int
    requires PlaceDefined(packPosition, packSizes, streams, folder, offset)
  {
    packPosition as int + Total(packSizes, TotalNat(streams, folder)) + offset as int
  }

  /** The entry of one file of the archive. Only a folder with the copy coder alone is accepted; then the entry
      exists exactly when the file's place is defined and the volumes hold it, and it points at its first
      range. */
  method EntryFor(path: string, packPosition: uint64, packSizes: seq<uint64>, streams: seq<uint64>,
                  coders: seq<seq<byte>>, folder: int, offset: int64, uncompressedSize: uint64, sizes: VolumeSizes)
    returns (result: Result<A.ArchiveEntry>)
    requires |packSizes| <= MAX_INT64
    ensures result.Ok? <==>
      && uncompressedSize as int <= MAX_INT64 && Copies(coders)
      && PlaceDefined(packPosition, packSizes, streams, folder, offset)
      && var start := PlaceOf(packPosition, packSizes, streams, folder, offset);
         && start + uncompressedSize as int <= MAX_INT64
         && (uncompressedSize > 0 ==> Reachable(sizes, start + uncompressedSize as int))
    ensures result.Ok? ==>
      var start, entry := PlaceOf(packPosition, packSizes, streams, folder, offset), result.value;
      && entry.path == path && entry.compressionMethod == "copy" && !entry.encrypted && !entry.solid
      && entry.sizeBytes == entry.packedSizeBytes == uncompressedSize as int
      && Split(entry.ranges, sizes, start, 0, entry.packedSizeBytes, entry.packedSizeBytes)
      && (entry.ranges != [] ==>
            entry.volumeIndex == entry.ranges[0].volumeIndex && entry.archiveOffset == entry.ranges[0].archiveOffset)
    ensures result.Encrypted? || result.CompressionUnsupported? <==>
      uncompressedSize as int <= MAX_INT64 && 0 <= folder < |streams| && offset >= 0 && !Copies(coders)
    ensures result.Encrypted? ==> AES_CODER in coders
    ensures result.CompressionUnsupported? ==> AES_CODER !in coders
  {
    hide Split, Reachable;
    if uncompressedSize as int > MAX_INT64 {
      return HeadersInvalid;
    }
    if folder < 0 || folder >= |streams| || offset < 0 {
      return HeadersInvalid;
    }
    var encrypted := FindEncryption(coders);
    if |coders| != 1 || coders[0] != COPY_CODER {
      return if encrypted then Encrypted else CompressionUnsupported;
    }
    var folderOffset, ok := FolderOffset(packPosition, packSizes, streams, folder);
    if ok {
      TotalMonotone(packSizes, 0, TotalNat(streams, folder));
    }
    if !ok || folderOffset > MAX_INT64 as int64 - offset {
      return HeadersInvalid;
    }
    var ranges := SplitArchiveRange(sizes, folderOffset + offset, uncompressedSize as int64);
    if !ranges.Ok? {
      return HeadersInvalid;
    }
    var entry := A.ArchiveEntry(path, uncompressedSize as int, uncompressedSize as int, "copy", false, false, 0, 0,
                                ranges.value);
    if |ranges.value| > 0 {
      entry := entry.(volumeIndex := ranges.value[0].volumeIndex, archiveOffset := ranges.value[0].archiveOffset);
    }
    return Ok(entry);
  }
}
