/** Import-time byte ranges of RAR entries: the first-volume walk (`assignArchiveRanges`), the
    completeness check (`hasCompleteArchiveMapping`) and the per-volume reassembly
    (the loop body of `aggregateRARVolumeEntries`; the loop is in `Aggregation`). */
module ArchiveRanges {
  datatype Option<+T> = None | Some(value: T)

  datatype ArchiveRange = ArchiveRange(volumeIndex: int, entryOffset: int, archiveOffset: int, lengthBytes: int)

  datatype ArchiveEntry = ArchiveEntry(
    path: string,
    sizeBytes: int,
    packedSizeBytes: int,
    compressionMethod: string,
    encrypted: bool,
    solid: bool,
    volumeIndex: int,
    archiveOffset: int,
    ranges: seq<ArchiveRange>)

  function Min(a: int, b: int): int { if a < b then a else b }

  // ----- hasCompleteArchiveMapping -------------------------------------------------------------

  /** The ranges cover [at, end) of the entry without gap, overlap or empty range. */
  ghost predicate Covers(ranges: seq<ArchiveRange>, at: int, end: int) {
    if ranges == [] then at == end
    else
      && ranges[0].entryOffset == at && ranges[0].lengthBytes > 0
      && Covers(ranges[1..], at + ranges[0].lengthBytes, end)
  }

  /** The entry's ranges account for exactly its packed bytes. */
  ghost predicate CompleteMapping(entry: ArchiveEntry) {
    entry.packedSizeBytes >= 0 && Covers(entry.ranges, 0, entry.packedSizeBytes)
  }

  lemma {:induction false} CoversForward(ranges: seq<ArchiveRange>, at: int, end: int)
    requires Covers(ranges, at, end)
    ensures at <= end && (ranges != [] ==> at < end)
  {
    if ranges != [] {
      CoversForward(ranges[1..], at + ranges[0].lengthBytes, end);
    }
  }

  method HasCompleteArchiveMapping(entry: ArchiveEntry) returns (complete: bool)
    ensures complete <==> CompleteMapping(entry)
  {
    if entry.packedSizeBytes < 0 {
      return false;
    }
    if entry.packedSizeBytes == 0 {
      if Covers(entry.ranges, 0, 0) { CoversForward(entry.ranges, 0, 0); }
      return |entry.ranges| == 0;
    }
    if |entry.ranges| == 0 {
      return false;
    }
    var expectedOffset, total := 0, 0;
    for i := 0 to |entry.ranges|
      invariant expectedOffset == total
      invariant Covers(entry.ranges, 0, entry.packedSizeBytes)
           <==> Covers(entry.ranges[i..], expectedOffset, entry.packedSizeBytes)
    {
      var item := entry.ranges[i];
      assert entry.ranges[i..][1..] == entry.ranges[i + 1..];
      if item.entryOffset != expectedOffset || item.lengthBytes <= 0 {
        return false;
      }
      expectedOffset := expectedOffset + item.lengthBytes;
      total := total + item.lengthBytes;
    }
    return total == entry.packedSizeBytes;
  }

  // ----- assignArchiveRanges ---------------------------------------------------------------------

  function Prepend(head: seq<ArchiveRange>, tail: Option<seq<ArchiveRange>>): Option<seq<ArchiveRange>> {
    match tail case None => None case Some(rest) => Some(head + rest)
  }

  lemma PrependNothing(tail: Option<seq<ArchiveRange>>)
    ensures Prepend([], tail) == tail
  {
    if tail.Some? {
      assert [] + tail.value == tail.value;
    }
  }

  lemma PrependTwice(a: seq<ArchiveRange>, b: seq<ArchiveRange>, tail: Option<seq<ArchiveRange>>)
    ensures Prepend(a, Prepend(b, tail)) == Prepend(a + b, tail)
  {
    if tail.Some? {
      assert a + (b + tail.value) == (a + b) + tail.value;
    }
  }

  /** Where reading starts in volume `v`: continuation volumes use their detected data offset. */
  function OffsetIn(offsets: map<int, int>, first: int, v: int, carried: int): int {
    if v != first && v in offsets then offsets[v] else carried
  }

  /** The ranges of the last `remaining` packed bytes, taken from volume `v` on. */
  function AssignFrom(sizes: map<int, int>, offsets: map<int, int>, first: int, v: int, carried: int,
                      entryOffset: int, remaining: int): Option<seq<ArchiveRange>>
    decreases remaining
  {
    if remaining <= 0 then Some([])
    else
      var offset := OffsetIn(offsets, first, v, carried);
      if v !in sizes || offset >= sizes[v] then None
      else
        var length := Min(remaining, sizes[v] - offset);
        Prepend([ArchiveRange(v, entryOffset, offset, length)],
                AssignFrom(sizes, offsets, first, v + 1, 0, entryOffset + length, remaining - length))
  }

  /** The entry after the walk: ranges appended on success, cleared on failure. */
  function Assigned(entry: ArchiveEntry, sizes: map<int, int>, offsets: map<int, int>): ArchiveEntry {
    if entry.packedSizeBytes <= 0 || entry.volumeIndex < 0 then entry
    else
      var walked := AssignFrom(sizes, offsets, entry.volumeIndex, entry.volumeIndex, entry.archiveOffset, 0,
                               entry.packedSizeBytes);
      entry.(ranges := if walked.None? then [] else entry.ranges + walked.value)
  }

  method AssignArchiveRanges(entries: array<ArchiveEntry>, sizes: map<int, int>, offsets: map<int, int>)
    modifies entries
    ensures forall i | 0 <= i < entries.Length :: entries[i] == Assigned(old(entries[i]), sizes, offsets)
  {
    for i := 0 to entries.Length
      invariant forall k | 0 <= k < i :: entries[k] == Assigned(old(entries[k]), sizes, offsets)
      invariant forall k | i <= k < entries.Length :: entries[k] == old(entries[k])
    {
      var entry := entries[i];
      if entry.packedSizeBytes <= 0 || entry.volumeIndex < 0 {
        continue;
      }
      var ranges := WalkEntry(entry, sizes, offsets);
      entries[i] := entry.(ranges := ranges);
    }
  }

  /** The inner loop: walk forward through the volumes until the entry is used up. */
  method WalkEntry(entry: ArchiveEntry, sizes: map<int, int>, offsets: map<int, int>)
      returns (ranges: seq<ArchiveRange>)
    requires entry.packedSizeBytes > 0 && entry.volumeIndex >= 0
    ensures ranges == Assigned(entry, sizes, offsets).ranges
  {
    var remaining, entryOffset := entry.packedSizeBytes, 0;
    var volumeIndex, archiveOffset := entry.volumeIndex, entry.archiveOffset;
    ranges := entry.ranges;
    ghost var found: seq<ArchiveRange> := [];
    ghost var whole := AssignFrom(sizes, offsets, entry.volumeIndex, volumeIndex, archiveOffset, 0, remaining);
    PrependNothing(whole);
    while remaining > 0
      invariant ranges == entry.ranges + found
      invariant Prepend(found, AssignFrom(sizes, offsets, entry.volumeIndex, volumeIndex, archiveOffset, entryOffset,
                                          remaining)) == whole
      decreases remaining
    {
      ghost var here := AssignFrom(sizes, offsets, entry.volumeIndex, volumeIndex, archiveOffset, entryOffset,
                                   remaining);
      if volumeIndex != entry.volumeIndex {
        if volumeIndex in offsets {
          archiveOffset := offsets[volumeIndex];
        }
      }
      if volumeIndex !in sizes || archiveOffset >= sizes[volumeIndex] {
        return [];
      }
      var available := sizes[volumeIndex] - archiveOffset;
      var length := remaining;
      if length > available {
        length := available;
      }
      var item := ArchiveRange(volumeIndex, entryOffset, archiveOffset, length);
      ghost var after := AssignFrom(sizes, offsets, entry.volumeIndex, volumeIndex + 1, 0, entryOffset + length,
                                    remaining - length);
      assert here == Prepend([item], after);
      PrependTwice(found, [item], after);
      assert (entry.ranges + found) + [item] == entry.ranges + (found + [item]);
      ranges := ranges + [item];
      found := found + [item];
      remaining, entryOffset := remaining - length, entryOffset + length;
      volumeIndex, archiveOffset := volumeIndex + 1, 0;
    }
    assert found + [] == found;
  }

  /** The range lies inside volume `v`. */
  ghost predicate InVolume(r: ArchiveRange, sizes: map<int, int>, v: int) {
    && r.volumeIndex == v && v in sizes
    && 0 <= r.archiveOffset && r.archiveOffset + r.lengthBytes <= sizes[v]
  }

  /** The ranges lie in consecutive volumes from `v` on. */
  ghost predicate InVolumes(ranges: seq<ArchiveRange>, sizes: map<int, int>, v: int) {
    ranges != [] ==> InVolume(ranges[0], sizes, v) && InVolumes(ranges[1..], sizes, v + 1)
  }

  lemma {:induction false} AssignFromCovers(sizes: map<int, int>, offsets: map<int, int>, first: int, v: int,
                                            carried: int, entryOffset: int, remaining: int)
    requires remaining >= 0 && carried >= 0 && forall k | k in offsets :: offsets[k] >= 0
    requires AssignFrom(sizes, offsets, first, v, carried, entryOffset, remaining).Some?
    ensures var ranges := AssignFrom(sizes, offsets, first, v, carried, entryOffset, remaining).value;
      Covers(ranges, entryOffset, entryOffset + remaining) && InVolumes(ranges, sizes, v)
    decreases remaining
  {
    if remaining > 0 {
      var offset := OffsetIn(offsets, first, v, carried);
      var length := Min(remaining, sizes[v] - offset);
      AssignFromCovers(sizes, offsets, first, v + 1, 0, entryOffset + length, remaining - length);
      var rest := AssignFrom(sizes, offsets, first, v + 1, 0, entryOffset + length, remaining - length).value;
      var r := ArchiveRange(v, entryOffset, offset, length);
      assert ([r] + rest)[1..] == rest;
    }
  }

  /** The walk never leaves a partial mapping behind: either no ranges, or a complete mapping through
      consecutive volumes with every range inside its volume. */
  lemma AssignedComplete(entry: ArchiveEntry, sizes: map<int, int>, offsets: map<int, int>)
    requires entry.ranges == [] && entry.packedSizeBytes > 0 && entry.volumeIndex >= 0
    requires entry.archiveOffset >= 0 && forall k | k in offsets :: offsets[k] >= 0
    ensures var filled := Assigned(entry, sizes, offsets);
      && filled == entry.(ranges := filled.ranges)
      && (filled.ranges == [] <==> !CompleteMapping(filled))
      && InVolumes(filled.ranges, sizes, entry.volumeIndex)
  {
    var walked := AssignFrom(sizes, offsets, entry.volumeIndex, entry.volumeIndex, entry.archiveOffset, 0,
                             entry.packedSizeBytes);
    if walked.Some? {
      AssignFromCovers(sizes, offsets, entry.volumeIndex, entry.volumeIndex, entry.archiveOffset, 0,
                       entry.packedSizeBytes);
      assert entry.ranges + walked.value == walked.value;
    }
  }

  // ----- aggregateRARVolumeEntries -----------------------------------------------------------------

  /** The bytes a fragment really contributes, and nothing when it cannot be placed. */
  function PartLength(part: ArchiveEntry, sizes: map<int, int>): Option<int> {
    if part.packedSizeBytes <= 0 then None
    else if part.volumeIndex !in sizes then Some(part.packedSizeBytes)
    else
      var available := sizes[part.volumeIndex] - part.archiveOffset;
      if available <= 0 then None else Some(Min(part.packedSizeBytes, available))
  }

  function Contribution(part: ArchiveEntry, sizes: map<int, int>): int {
    var length := PartLength(part, sizes);
    if length.Some? then length.value else 0
  }

  predicate SameKind(a: ArchiveEntry, b: ArchiveEntry) {
    && a.path == b.path && a.compressionMethod == b.compressionMethod
    && a.encrypted == b.encrypted && a.solid == b.solid
  }

  /** Fragment `k` fits behind those before it: same kind as the first, a later volume than the one
      before, and bytes to contribute. */
  predicate FitsAt(parts: seq<ArchiveEntry>, sizes: map<int, int>, k: nat)
    requires k < |parts|
  {
    && SameKind(parts[k], parts[0])
    && (k > 0 ==> parts[k - 1].volumeIndex < parts[k].volumeIndex)
    && PartLength(parts[k], sizes).Some?
  }

  /** All of the sorted fragments can be joined. */
  ghost predicate Joinable(parts: seq<ArchiveEntry>, sizes: map<int, int>) {
    forall k: nat | k < |parts| :: FitsAt(parts, sizes, k)
  }

  /** The contributed bytes of the first `k` fragments. */
  function Packed(parts: seq<ArchiveEntry>, sizes: map<int, int>, k: nat): int
    requires k <= |parts|
  {
    if k == 0 then 0
    else Packed(parts, sizes, k - 1) + Contribution(parts[k - 1], sizes)
  }

  /** The largest declared unpacked size. */
  function Declared(parts: seq<ArchiveEntry>, k: nat): int
    requires 0 < k <= |parts|
  {
    if k == 1 then parts[0].sizeBytes
    else if parts[k - 1].sizeBytes > Declared(parts, k - 1) then parts[k - 1].sizeBytes else Declared(parts, k - 1)
  }

  function Abs(n: int): int { if n < 0 then -n else n }

  /** The declared size is close enough to the contributed bytes for the last range to absorb the rest. */
  predicate Rounds(declared: int, packed: int) { declared > 0 && Abs(declared - packed) <= 16 }

  /** The ranges of the first `k` fragments before any adjustment. */
  function JoinedRanges(parts: seq<ArchiveEntry>, sizes: map<int, int>, k: nat): (ranges: seq<ArchiveRange>)
    requires k <= |parts|
    ensures |ranges| == k
  {
    if k == 0 then []
    else
      JoinedRanges(parts, sizes, k - 1)
      + [ArchiveRange(parts[k - 1].volumeIndex, Packed(parts, sizes, k - 1), parts[k - 1].archiveOffset,
                      Contribution(parts[k - 1], sizes))]
  }

  /** What joining the fragments produces when they can be joined. */
  function Joined(parts: seq<ArchiveEntry>, sizes: map<int, int>): ArchiveEntry
    requires parts != []
  {
    Settled(Unsettled(parts, sizes))
  }

  /** The entry as accumulated over the fragments, before the sizes are reconciled. */
  function Unsettled(parts: seq<ArchiveEntry>, sizes: map<int, int>): ArchiveEntry
    requires parts != []
  {
    var n, first := |parts|, parts[0];
    ArchiveEntry(first.path, Declared(parts, n), Packed(parts, sizes, n), first.compressionMethod, first.encrypted,
                 first.solid, first.volumeIndex, first.archiveOffset, JoinedRanges(parts, sizes, n))
  }

  /** The reconciliation of the declared size with the contributed bytes. */
  function Settled(entry: ArchiveEntry): ArchiveEntry
    requires entry.ranges != []
  {
    if entry.sizeBytes <= 0 then entry
    else if Abs(entry.sizeBytes - entry.packedSizeBytes) <= 16 then
      var last := |entry.ranges| - 1;
      var extra := entry.sizeBytes - entry.packedSizeBytes;
      var grown := entry.ranges[last].(lengthBytes := entry.ranges[last].lengthBytes + extra);
      entry.(packedSizeBytes := entry.sizeBytes, ranges := entry.ranges[last := grown])
    else if entry.compressionMethod == "m0" then entry.(sizeBytes := entry.packedSizeBytes)
    else entry
  }

  /** The checks of one loop turn: the fragment's contribution, or nothing when it does not fit. */
  method CheckPart(parts: seq<ArchiveEntry>, sizes: map<int, int>, i: nat) returns (length: Option<int>)
    requires i < |parts|
    ensures length.Some? <==> FitsAt(parts, sizes, i)
    ensures length.Some? ==> length.value == Contribution(parts[i], sizes)
  {
    var part, first := parts[i], parts[0];
    if part.path != first.path || part.compressionMethod != first.compressionMethod {
      return None;
    }
    if part.encrypted != first.encrypted || part.solid != first.solid {
      return None;
    }
    if i > 0 && part.volumeIndex <= parts[i - 1].volumeIndex {
      return None;
    }
    var partPackedSize := part.packedSizeBytes;
    if partPackedSize <= 0 {
      return None;
    }
    if part.volumeIndex in sizes {
      var available := sizes[part.volumeIndex] - part.archiveOffset;
      if available <= 0 {
        return None;
      }
      if partPackedSize > available {
        partPackedSize := available;
      }
    }
    return Some(partPackedSize);
  }

  /** Join the sorted fragments of one file. */
  method JoinParts(parts: seq<ArchiveEntry>, sizes: map<int, int>) returns (result: Option<ArchiveEntry>)
    requires parts != []
    ensures result.Some? <==> Joinable(parts, sizes)
    ensures result.Some? ==> result.value == Joined(parts, sizes)
  {
    var first := parts[0];
    var sizeBytes, packedSizeBytes, entryOffset := first.sizeBytes, 0, 0;
    var ranges: seq<ArchiveRange> := [];
    for i := 0 to |parts|
      invariant forall k: nat | k < i :: FitsAt(parts, sizes, k)
      invariant entryOffset == packedSizeBytes == Packed(parts, sizes, i)
      invariant sizeBytes == if i == 0 then first.sizeBytes else Declared(parts, i)
      invariant ranges == JoinedRanges(parts, sizes, i)
    {
      var length := CheckPart(parts, sizes, i);
      if length.None? {
        return None;
      }
      if parts[i].sizeBytes > sizeBytes {
        sizeBytes := parts[i].sizeBytes;
      }
      ranges := ranges + [ArchiveRange(parts[i].volumeIndex, entryOffset, parts[i].archiveOffset, length.value)];
      entryOffset := entryOffset + length.value;
      packedSizeBytes := packedSizeBytes + length.value;
    }
    if sizeBytes > 0 {
      var diff := sizeBytes - packedSizeBytes;
      if diff < 0 {
        diff := -diff;
      }
      if diff <= 16 && |ranges| > 0 {
        var last := |ranges| - 1;
        packedSizeBytes := sizeBytes;
        ranges := ranges[last := ranges[last].(lengthBytes := ranges[last].lengthBytes + (sizeBytes - entryOffset))];
      } else if first.compressionMethod == "m0" {
        sizeBytes := packedSizeBytes;
      }
    }
    result := Some(ArchiveEntry(first.path, sizeBytes, packedSizeBytes, first.compressionMethod, first.encrypted,
                                first.solid, first.volumeIndex, first.archiveOffset, ranges));
  }

  // ----- What the joined entry guarantees ------------------------------------------------------------

  lemma {:induction false} JoinedRangesAt(parts: seq<ArchiveEntry>, sizes: map<int, int>, n: nat, k: nat)
    requires k < n <= |parts|
    ensures JoinedRanges(parts, sizes, n)[k]
         == ArchiveRange(parts[k].volumeIndex, Packed(parts, sizes, k), parts[k].archiveOffset,
                         Contribution(parts[k], sizes))
  {
    if k < n - 1 {
      JoinedRangesAt(parts, sizes, n - 1, k);
    }
  }

  function LengthSum(ranges: seq<ArchiveRange>): int {
    if ranges == [] then 0 else LengthSum(ranges[..|ranges| - 1]) + ranges[|ranges| - 1].lengthBytes
  }

  lemma {:induction false} JoinedSum(parts: seq<ArchiveEntry>, sizes: map<int, int>, n: nat)
    requires n <= |parts|
    ensures LengthSum(JoinedRanges(parts, sizes, n)) == Packed(parts, sizes, n)
  {
    if n > 0 {
      JoinedSum(parts, sizes, n - 1);
      var all := JoinedRanges(parts, sizes, n);
      assert all[..n - 1] == JoinedRanges(parts, sizes, n - 1);
    }
  }

  /** What rounding adds to the last range. */
  function Adjustment(parts: seq<ArchiveEntry>, sizes: map<int, int>): int
    requires parts != []
  {
    var n := |parts|;
    if Rounds(Declared(parts, n), Packed(parts, sizes, n)) then Declared(parts, n) - Packed(parts, sizes, n) else 0
  }

  /** Range `k` sits in fragment k's volume, starts where the fragments before it end, and has the
      length that volume really supplies; only the last is adjusted, by at most 16 bytes. */
  lemma JoinedShape(parts: seq<ArchiveEntry>, sizes: map<int, int>, k: nat)
    requires k < |parts|
    ensures |Joined(parts, sizes).ranges| == |parts| && Abs(Adjustment(parts, sizes)) <= 16
    ensures Joined(parts, sizes).ranges[k]
         == ArchiveRange(parts[k].volumeIndex, Packed(parts, sizes, k), parts[k].archiveOffset,
                         Contribution(parts[k], sizes) + if k == |parts| - 1 then Adjustment(parts, sizes) else 0)
  {
    JoinedRangesAt(parts, sizes, |parts|, k);
  }

  /** Joining conserves bytes: the lengths add up to the packed size, and a stored entry with a
      declared size ends with equal sizes. */
  lemma JoinedConserves(parts: seq<ArchiveEntry>, sizes: map<int, int>)
    requires parts != []
    ensures LengthSum(Joined(parts, sizes).ranges) == Joined(parts, sizes).packedSizeBytes
    ensures Joined(parts, sizes).packedSizeBytes == Packed(parts, sizes, |parts|) + Adjustment(parts, sizes)
    ensures Joined(parts, sizes).compressionMethod == "m0" && Declared(parts, |parts|) > 0 ==>
              Joined(parts, sizes).sizeBytes == Joined(parts, sizes).packedSizeBytes
  {
    JoinedSum(parts, sizes, |parts|);
    SettledConserves(Unsettled(parts, sizes));
  }

  lemma SettledConserves(entry: ArchiveEntry)
    requires entry.ranges != [] && LengthSum(entry.ranges) == entry.packedSizeBytes
    ensures LengthSum(Settled(entry).ranges) == Settled(entry).packedSizeBytes
    ensures Settled(entry).packedSizeBytes
         == entry.packedSizeBytes +
            if Rounds(entry.sizeBytes, entry.packedSizeBytes) then entry.sizeBytes - entry.packedSizeBytes else 0
    ensures entry.compressionMethod == "m0" && entry.sizeBytes > 0 ==>
        Settled(entry).sizeBytes == Settled(entry).packedSizeBytes
  {
    LengthSumGrown(entry.ranges, entry.sizeBytes - entry.packedSizeBytes);
  }

  lemma LengthSumGrown(ranges: seq<ArchiveRange>, extra: int)
    requires ranges != []
    ensures var last := |ranges| - 1;
      LengthSum(ranges[last := ranges[last].(lengthBytes := ranges[last].lengthBytes + extra)])
      == LengthSum(ranges) + extra
  {
    var last := |ranges| - 1;
    var grown := ranges[last := ranges[last].(lengthBytes := ranges[last].lengthBytes + extra)];
    assert grown[..last] == ranges[..last];
  }

  /** The ranges of a joinable file visit strictly increasing volumes. */
  lemma {:induction false} JoinedVolumesIncrease(parts: seq<ArchiveEntry>, sizes: map<int, int>, j: nat, k: nat)
    requires Joinable(parts, sizes) && j < k < |parts|
    ensures parts[j].volumeIndex < parts[k].volumeIndex
  {
    assert FitsAt(parts, sizes, k);
    if j < k - 1 {
      JoinedVolumesIncrease(parts, sizes, j, k - 1);
    }
  }

  lemma {:induction false} CoversAppend(ranges: seq<ArchiveRange>, at: int, end: int, r: ArchiveRange)
    requires Covers(ranges, at, end) && r.entryOffset == end && r.lengthBytes > 0
    ensures Covers(ranges + [r], at, end + r.lengthBytes)
  {
    if ranges != [] {
      CoversAppend(ranges[1..], at + ranges[0].lengthBytes, end, r);
      assert (ranges + [r])[1..] == ranges[1..] + [r];
    } else {
      assert (ranges + [r])[1..] == [];
    }
  }

  lemma {:induction false} JoinedCovers(parts: seq<ArchiveEntry>, sizes: map<int, int>, n: nat)
    requires n <= |parts| && Joinable(parts, sizes)
    ensures Covers(JoinedRanges(parts, sizes, n), 0, Packed(parts, sizes, n))
  {
    if n > 0 {
      JoinedCovers(parts, sizes, n - 1);
      assert FitsAt(parts, sizes, n - 1);
      CoversAppend(JoinedRanges(parts, sizes, n - 1), 0, Packed(parts, sizes, n - 1),
                   JoinedRanges(parts, sizes, n)[n - 1]);
    }
  }

  lemma {:induction false} CoversPositive(ranges: seq<ArchiveRange>, at: int, end: int, k: nat)
    requires Covers(ranges, at, end) && k < |ranges|
    ensures ranges[k].lengthBytes > 0
  {
    if k > 0 {
      CoversPositive(ranges[1..], at + ranges[0].lengthBytes, end, k - 1);
    }
  }

  /** The joined entry passes the completeness check exactly when rounding does not swallow the last
      fragment, that is when the declared size, if within 16 bytes, exceeds the bytes before it. */
  lemma JoinedCompleteExactly(parts: seq<ArchiveEntry>, sizes: map<int, int>)
    requires parts != [] && Joinable(parts, sizes)
    ensures var n := |parts|;
      CompleteMapping(Joined(parts, sizes)) <==>
        (Rounds(Declared(parts, n), Packed(parts, sizes, n)) ==> Declared(parts, n) > Packed(parts, sizes, n - 1))
  {
    var n, entry := |parts|, Joined(parts, sizes);
    JoinedShape(parts, sizes, n - 1);
    JoinedCovers(parts, sizes, n);
    JoinedCovers(parts, sizes, n - 1);
    CoversForward(JoinedRanges(parts, sizes, n), 0, Packed(parts, sizes, n));
    if Rounds(Declared(parts, n), Packed(parts, sizes, n)) {
      var front, last := JoinedRanges(parts, sizes, n - 1), entry.ranges[n - 1];
      assert entry.ranges == front + [last];
      if last.lengthBytes > 0 {
        CoversAppend(front, 0, Packed(parts, sizes, n - 1), last);
      } else if CompleteMapping(entry) {
        CoversPositive(entry.ranges, 0, entry.packedSizeBytes, n - 1);
      }
    }
  }

  /** A last fragment of more than 16 bytes is never swallowed. */
  lemma JoinedCompleteWhenLong(parts: seq<ArchiveEntry>, sizes: map<int, int>)
    requires parts != [] && Joinable(parts, sizes) && Contribution(parts[|parts| - 1], sizes) > 16
    ensures CompleteMapping(Joined(parts, sizes))
  {
    JoinedCompleteExactly(parts, sizes);
  }

  /** Where the last range ends in its volume: at most 16 bytes past the volume's size, and past it
      exactly when the declared size is above the contributed bytes by more than the room left. */
  lemma JoinedLastInVolumeExactly(parts: seq<ArchiveEntry>, sizes: map<int, int>)
    requires parts != [] && Joinable(parts, sizes) && parts[|parts| - 1].volumeIndex in sizes
    ensures var n := |parts|;
      var last, size := Joined(parts, sizes).ranges[n - 1], sizes[parts[n - 1].volumeIndex];
      var room := size - parts[n - 1].archiveOffset - Contribution(parts[n - 1], sizes);
      && room >= 0 && last.archiveOffset + last.lengthBytes <= size + 16
      && (last.archiveOffset + last.lengthBytes <= size <==>
            (Rounds(Declared(parts, n), Packed(parts, sizes, n)) ==>
             Declared(parts, n) - Packed(parts, sizes, n) <= room))
  {
    JoinedRangesAt(parts, sizes, |parts|, |parts| - 1);
    assert FitsAt(parts, sizes, |parts| - 1);
  }

  /** One fragment filling its 100-byte volume with a declared size of 110 maps 10 bytes that the
      volume does not have, and the completeness check accepts it; fragments of 100 and 8 bytes with a
      declared size of 100 leave an empty last range, and it is refused. */
  lemma RoundingExamples()
    ensures var part := ArchiveEntry("a.mkv", 110, 100, "m0", false, false, 0, 0, []);
      && Joined([part], map[0 := 100]).ranges == [ArchiveRange(0, 0, 0, 110)]
      && CompleteMapping(Joined([part], map[0 := 100]))
    ensures var first := ArchiveEntry("a.mkv", 100, 100, "m0", false, false, 0, 0, []);
      var second := ArchiveEntry("a.mkv", 100, 8, "m0", false, false, 1, 0, []);
      !CompleteMapping(Joined([first, second], map[0 := 100, 1 := 100]))
  {
    var part := ArchiveEntry("a.mkv", 110, 100, "m0", false, false, 0, 0, []);
    var sizes := map[0 := 100];
    assert Packed([part], sizes, 1) == Packed([part], sizes, 0) + 100;
    assert FitsAt([part], sizes, 0);
    JoinedCompleteExactly([part], sizes);
    JoinedRangesAt([part], sizes, 1, 0);
    var first := ArchiveEntry("a.mkv", 100, 100, "m0", false, false, 0, 0, []);
    var second := ArchiveEntry("a.mkv", 100, 8, "m0", false, false, 1, 0, []);
    var both, more := [first, second], map[0 := 100, 1 := 100];
    assert FitsAt(both, more, 0) && FitsAt(both, more, 1);
    assert Packed(both, more, 1) == Packed(both, more, 0) + 100 == 100;
    assert Packed(both, more, 2) == Packed(both, more, 1) + 8;
    assert Declared(both, 2) == 100;
    JoinedCompleteExactly(both, more);
  }
}
