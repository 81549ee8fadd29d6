/** Which bytes a stored_rar file consists of: what the table the loader settles on reads, said in terms of
    the volumes' own bytes, the names they are stored under and the offsets in the rows. */
module StoredRarBytes {
  import opened Bytes
  import opened SpanLayout
  import opened StoredRar
  import opened StoredRarRebuild
  import opened StoredRarLoad
  import opened VolumeNames
  import StableSort

  /** The decoded bytes of the volume stored under a name. */
  ghost function VolumeBytes(store: ArticleStore, sources: Sources, name: string): seq<byte>
    requires HoldsAll(store, sources) && name in sources
  {
    HoldsNames(store, sources[name].messageIds, sources[name].decodedSegmentSize, sources[name].lastDecodedSize);
    FileBytes(store, sources[name].messageIds, 0)
  }

  lemma VolumeSize(store: ArticleStore, sources: Sources, name: string)
    requires HoldsAll(store, sources) && name in sources && HasSegments(sources[name])
    ensures |VolumeBytes(store, sources, name)| == SourceSize(sources[name])
  {
    var s := sources[name];
    FileBytesLength(store, s.messageIds, s.decodedSegmentSize, s.lastDecodedSize, 0);
    SourceSizeIsTotal(s);
  }

  // ----- Ranges ----------------------------------------------------------------------------------------------

  /** The range is a non-empty slice of the volume stored under `name`, whose path it gives up to the case of
      letters and surrounding white space. */
  ghost predicate Names(store: ArticleStore, sources: Sources, r: RangeSource, name: string)
    requires HoldsAll(store, sources)
  {
    && name in sources && StoredName(name) && Named(r.volumePath, name) && HasSegments(sources[name])
    && 0 <= r.archiveOffset < r.archiveOffset + r.lengthBytes <= |VolumeBytes(store, sources, name)|
  }

  lemma NamedSlice(store: ArticleStore, sources: Sources, r: RangeSource, name: string)
    requires HoldsAll(store, sources) && Names(store, sources, r, name)
    ensures WithinSource(sources, r) && InsideVolume(sources, r)
    ensures VolumeSlice(store, sources, r)
         == VolumeBytes(store, sources, name)[r.archiveOffset..r.archiveOffset + r.lengthBytes]
  {
    FindsExactly(r.volumePath, name);
    VolumeSize(store, sources, name);
    WithinInside(sources, r);
  }

  ghost predicate AllNamed(store: ArticleStore, sources: Sources, ranges: seq<RangeSource>, names: seq<string>)
    requires HoldsAll(store, sources)
  {
    |names| == |ranges| && forall i | 0 <= i < |ranges| :: Names(store, sources, ranges[i], names[i])
  }

  lemma NamedInside(store: ArticleStore, sources: Sources, ranges: seq<RangeSource>, names: seq<string>)
    requires HoldsAll(store, sources) && AllNamed(store, sources, ranges, names)
    ensures AllInside(sources, ranges)
  {
    forall r | r in ranges ensures InsideVolume(sources, r) {
      var i :| 0 <= i < |ranges| && ranges[i] == r;
      NamedSlice(store, sources, r, names[i]);
    }
  }

  /** Contiguous non-empty ranges come back in entry order however the rows listed them. */
  lemma RearrangedSorts(ranges: seq<RangeSource>, ordered: seq<RangeSource>)
    requires multiset(ranges) == multiset(ordered)
    requires Contiguous(ordered, 0) && forall r | r in ordered :: r.lengthBytes > 0
    ensures SortedRanges(ranges) == ordered
  {
    forall i, j | 0 <= i < j < |ordered| ensures ordered[i].entryOffset < ordered[j].entryOffset {
      EntriesIncrease(ordered, 0, i, j);
    }
    StableSort.SortRestores(ranges, ordered, RangeLess);
  }

  lemma {:induction false} EntriesIncrease(ranges: seq<RangeSource>, at: int, i: nat, j: nat)
    requires Contiguous(ranges, at) && i < j < |ranges| && forall r | r in ranges :: r.lengthBytes > 0
    ensures ranges[i].entryOffset < ranges[j].entryOffset
  {
    if i == 0 {
      ContiguousAfter(ranges, at, j);
    } else {
      EntriesIncrease(ranges[1..], at + ranges[0].lengthBytes, i - 1, j - 1);
    }
  }

  /** In whatever order the rows list contiguous ranges, the table of their file reads, at each range's entry
      offset, the bytes of the volume the range names, from its archive offset on, and nothing else. */
  lemma RearrangedReads(store: ArticleStore, sources: Sources, ranges: seq<RangeSource>, ordered: seq<RangeSource>,
                        names: seq<string>, k: nat)
    requires HoldsAll(store, sources) && AllNamed(store, sources, ordered, names)
    requires multiset(ranges) == multiset(ordered) && Contiguous(ordered, 0) && k < |ordered|
    ensures var whole, r := ReadAll(store, StoredRarSpans(sources, ranges)), ordered[k];
      && |whole| == TotalLength(ordered)
      && PartAt(whole, r.entryOffset,
                VolumeBytes(store, sources, names[k])[r.archiveOffset..r.archiveOffset + r.lengthBytes])
  {
    hide VolumeBytes, StoredRarSpans, ReadAll, PartAt, VolumeSlice, HoldsAll, InsideVolume, HasSegments, Named;
    SameTable(store, sources, ranges, ordered, names);
    NamedInside(store, sources, ordered, names);
    NamedSlice(store, sources, ordered[k], names[k]);
    ContiguousReads(store, sources, ordered, k);
  }

  lemma SameTable(store: ArticleStore, sources: Sources, ranges: seq<RangeSource>, ordered: seq<RangeSource>,
                  names: seq<string>)
    requires HoldsAll(store, sources) && AllNamed(store, sources, ordered, names)
    requires multiset(ranges) == multiset(ordered) && Contiguous(ordered, 0)
    ensures StoredRarSpans(sources, ranges) == StoredRarSpans(sources, ordered)
  {
    hide VolumeBytes, HoldsAll, HasSegments, Named, StoredName;
    forall r | r in ordered ensures r.lengthBytes > 0 {
      var i :| 0 <= i < |ordered| && ordered[i] == r;
      assert Names(store, sources, r, names[i]);
    }
    RearrangedSorts(ranges, ordered);
    RearrangedSorts(ordered, ordered);
    assert |multiset(ranges)| == |ranges| && |multiset(ordered)| == |ordered|;
  }

  // ----- The persisted ranges ----------------------------------------------------------------------------------

  lemma {:induction false} ReadAllAtMost(store: ArticleStore, spans: seq<SegmentSpan>, lo: int, hi: int)
    requires Tiles(spans, lo, hi)
    ensures |ReadAll(store, spans)| <= hi - lo
  {
    if spans != [] {
      ReadAllAtMost(store, spans[1..], spans[0].end, hi);
    }
  }

  /** A layout that reads as many bytes as it is long reads every span in full. */
  lemma {:induction false} FullReadable(store: ArticleStore, spans: seq<SegmentSpan>, lo: int, hi: int)
    requires Tiles(spans, lo, hi) && |ReadAll(store, spans)| == hi - lo
    ensures Readable(store, spans)
  {
    if spans != [] {
      ReadAllAtMost(store, spans[1..], spans[0].end, hi);
      FullReadable(store, spans[1..], spans[0].end, hi);
      assert spans == [spans[0]] + spans[1..];
    }
  }

  /** When the persisted ranges cover the file, or more than the file, its bytes are theirs, cut at the size. */
  lemma PersistedServes(store: ArticleStore, rows: StoredRows, ordered: seq<RangeSource>, names: seq<string>)
    requires HoldsAll(store, rows.sources) && AllNamed(store, rows.sources, ordered, names) && ordered != []
    requires multiset(rows.ranges) == multiset(ordered) && Contiguous(ordered, 0)
    requires 0 <= rows.size <= TotalLength(ordered)
    ensures var whole := ReadAll(store, StoredRarSpans(rows.sources, rows.ranges));
      |whole| == TotalLength(ordered) && ReadAll(store, Loaded(rows)) == whole[..rows.size]
  {
    hide ReadAll, StoredRarSpans, HoldsAll, AllNamed, Contiguous, Tiles, TotalLength, FileSize, Truncated;
    var spans, total := StoredRarSpans(rows.sources, rows.ranges), TotalLength(ordered);
    SameTable(store, rows.sources, rows.ranges, ordered, names);
    NamedInside(store, rows.sources, ordered, names);
    ContiguousTiles(rows.sources, ordered);
    RearrangedReads(store, rows.sources, rows.ranges, ordered, names, 0);
    FullReadable(store, spans, 0, total);
    TruncatedReads(store, spans, 0, total, rows.size);
  }

  // ----- The rebuilt ranges --------------------------------------------------------------------------------------

  /** The volume a rebuild starts in: the first whose path means the same name, or the first of all. */
  ghost predicate StartsIn(volumes: seq<VolumeMeta>, path: string, first: nat) {
    || (first < |volumes| && VolumeKey(volumes[first].path) == VolumeKey(path)
        && forall i | 0 <= i < first :: VolumeKey(volumes[i].path) != VolumeKey(path))
    || (first == 0 && forall i | 0 <= i < |volumes| :: VolumeKey(volumes[i].path) != VolumeKey(path))
  }

  /** Volume and offset the file's first byte is at: those of the first persisted range, or of the row. */
  ghost predicate BeginsAt(rows: StoredRows, first: nat, offset: int) {
    if rows.ranges != [] then
      offset == rows.ranges[0].archiveOffset && StartsIn(rows.volumes, rows.ranges[0].volumePath, first)
    else
      offset == rows.startArchiveOffset && StartsIn(rows.volumes, rows.startVolumePath, first)
  }

  /** What a rebuild goes by: the first volume and the offset in it, and the offsets measured in later volumes. */
  datatype Plan = Plan(volumes: seq<VolumeMeta>, measured: map<string, int>, first: nat, offset: int)

  /** Where the file's bytes are in volume `i`: behind the offset given for the first volume, and behind the
      measured offset in a later one, or from its beginning on if there is none. */
  function Behind(p: Plan, i: nat): nat
    requires i < |p.volumes|
  {
    if i == p.first then Max(p.offset, 0)
    else if VolumeKey(p.volumes[i].path) in p.measured then Max(p.measured[VolumeKey(p.volumes[i].path)], 0)
    else 0
  }

  /** Volume `i` is known and has bytes behind that place. */
  ghost predicate HasTail(store: ArticleStore, sources: Sources, p: Plan, i: nat)
    requires HoldsAll(store, sources) && i < |p.volumes|
  {
    var key := VolumeKey(p.volumes[i].path);
    key in sources && Behind(p, i) < |VolumeBytes(store, sources, key)|
  }

  ghost function Tail(store: ArticleStore, sources: Sources, p: Plan, i: nat): (bytes: seq<byte>)
    requires HoldsAll(store, sources) && i < |p.volumes| && HasTail(store, sources, p, i)
    ensures bytes != []
  {
    VolumeBytes(store, sources, VolumeKey(p.volumes[i].path))[Behind(p, i)..]
  }

  /** Volumes [i, k) are known and have bytes to give. */
  ghost predicate HaveTails(store: ArticleStore, sources: Sources, p: Plan, i: nat, k: nat)
    requires HoldsAll(store, sources)
  {
    i <= k <= |p.volumes| && forall v: nat | i <= v < k :: HasTail(store, sources, p, v)
  }

  /** Their bytes, one volume behind the other. */
  ghost function Tails(store: ArticleStore, sources: Sources, p: Plan, i: nat, k: nat): seq<byte>
    requires HoldsAll(store, sources) && HaveTails(store, sources, p, i, k)
    decreases k - i
  {
    if i == k then [] else Tail(store, sources, p, i) + Tails(store, sources, p, i + 1, k)
  }

  /** Volumes [i, k) have at least `size` bytes to give. */
  ghost predicate Suffice(store: ArticleStore, sources: Sources, p: Plan, i: nat, k: nat, size: int)
    requires HoldsAll(store, sources)
  {
    HaveTails(store, sources, p, i, k) && size <= |Tails(store, sources, p, i, k)|
  }

  ghost predicate AllSegmented(sources: Sources) {
    forall key | key in sources :: HasSegments(sources[key])
  }

  /** The walk as the program makes it for such a plan. */
  function WalkOf(sources: Sources, p: Plan): Walk { Walk(sources, p.volumes, p.measured, p.first) }

  /** The walk from volume `i` on. */
  function RangesFrom(sources: Sources, p: Plan, i: nat, at: int, size: int): Option<seq<RangeSource>> {
    WalkFrom(WalkOf(sources, p), i, if i == p.first then Max(p.offset, 0) else 0, at, size)
  }

  /** One step of the walk, in terms of the volume's bytes. */
  lemma WalkTail(store: ArticleStore, sources: Sources, p: Plan, i: nat, at: int, size: int)
    requires HoldsAll(store, sources) && AllSegmented(sources) && p.first <= i < |p.volumes| && size > 0
    ensures !HasTail(store, sources, p, i) ==> RangesFrom(sources, p, i, at, size).None?
    ensures HasTail(store, sources, p, i) ==>
      var length := Min(size, |Tail(store, sources, p, i)|);
      RangesFrom(sources, p, i, at, size)
      == Prepend([RangeSource(p.volumes[i].path, at, Behind(p, i), length)],
                 RangesFrom(sources, p, i + 1, at + length, size - length))
  {
    hide SourceSize, VolumeBytes, HoldsAll, VolumeKey;
    var key := VolumeKey(p.volumes[i].path);
    if key in sources {
      VolumeSize(store, sources, key);
    }
  }

  lemma RangeIsTail(store: ArticleStore, sources: Sources, p: Plan, i: nat, r: RangeSource)
    requires HoldsAll(store, sources) && AllSegmented(sources) && i < |p.volumes| && HasTail(store, sources, p, i)
    requires r.volumePath == p.volumes[i].path && r.archiveOffset == Behind(p, i)
    requires 0 < r.lengthBytes <= |Tail(store, sources, p, i)|
    ensures InsideVolume(sources, r)
    ensures VolumeSlice(store, sources, r) == Tail(store, sources, p, i)[..r.lengthBytes]
  {
    hide VolumeKey, FileBytes;
    var key := VolumeKey(p.volumes[i].path);
    VolumeSize(store, sources, key);
    WithinInside(sources, r);
    SliceOfSuffix(VolumeBytes(store, sources, key), r.archiveOffset, r.archiveOffset, r.archiveOffset + r.lengthBytes);
  }

  /** If the volumes from `i` on suffice, the walk succeeds, and its ranges name the volumes' tails, cut at the
      size. */
  lemma {:induction false} WalkServes(store: ArticleStore, sources: Sources, p: Plan, i: nat, k: nat, at: int,
                                      size: int)
    requires HoldsAll(store, sources) && AllSegmented(sources) && p.first <= i && 0 <= size
    requires Suffice(store, sources, p, i, k, size)
    ensures RangesFrom(sources, p, i, at, size).Some?
    ensures var ranges := RangesFrom(sources, p, i, at, size).value;
      AllInside(sources, ranges) && Flat(Chunks(store, sources, ranges)) == Tails(store, sources, p, i, k)[..size]
    decreases k - i
  {
    hide Tail, HasTail, InsideVolume, RangesFrom, RangeBytes, HoldsAll, VolumeSlice, AllSegmented, Chunks, Flat;
    if size > 0 {
      var head, rest := Tail(store, sources, p, i), Tails(store, sources, p, i + 1, k);
      var length := Min(size, |head|);
      var r := RangeSource(p.volumes[i].path, at, Behind(p, i), length);
      WalkTail(store, sources, p, i, at, size);
      WalkServes(store, sources, p, i + 1, k, at + length, size - length);
      RangeIsTail(store, sources, p, i, r);
      SliceIsRange(store, sources, r);
      var more := RangesFrom(sources, p, i + 1, at + length, size - length).value;
      ChunksFront(store, sources, r, more);
      CutAcross(head, rest, size);
    } else {
      WalkEnds(store, sources, p, i, at);
    }
  }

  lemma CutAcross<T>(head: seq<T>, rest: seq<T>, size: int)
    requires 0 <= size <= |head| + |rest|
    ensures (head + rest)[..size]
         == head[..Min(size, |head|)] + rest[..size - Min(size, |head|)]
  {
  }

  lemma WalkEnds(store: ArticleStore, sources: Sources, p: Plan, i: nat, at: int)
    requires HoldsAll(store, sources)
    ensures RangesFrom(sources, p, i, at, 0) == Some([]) && Flat(Chunks(store, sources, [])) == []
  {
  }

  lemma ChunksFront(store: ArticleStore, sources: Sources, r: RangeSource, more: seq<RangeSource>)
    requires HoldsAll(store, sources)
    ensures Flat(Chunks(store, sources, [r] + more))
         == RangeBytes(store, sources, r) + Flat(Chunks(store, sources, more))
  {
    hide RangeBytes, HoldsAll;
    assert Chunks(store, sources, [r] + more)[1..] == Chunks(store, sources, more);
  }

  /** If the walk succeeds, the volumes suffice. */
  lemma {:induction false} WalkNeeds(store: ArticleStore, sources: Sources, p: Plan, i: nat, at: int, size: int)
    returns (k: nat)
    requires HoldsAll(store, sources) && AllSegmented(sources) && p.first <= i <= |p.volumes| && 0 <= size
    requires RangesFrom(sources, p, i, at, size).Some?
    ensures Suffice(store, sources, p, i, k, size)
    decreases |p.volumes| - i
  {
    hide Tail, HasTail, HoldsAll;
    k := i;
    if size > 0 {
      hide WalkFrom;
      WalkStops(sources, p, at, size);
      WalkTail(store, sources, p, i, at, size);
      var length := Min(size, |Tail(store, sources, p, i)|);
      k := WalkNeeds(store, sources, p, i + 1, at + length, size - length);
    }
  }

  lemma WalkStops(sources: Sources, p: Plan, at: int, size: int)
    requires size > 0
    ensures RangesFrom(sources, p, |p.volumes|, at, size).None?
  {
  }

  // ----- The loader's choice ---------------------------------------------------------------------------------------

  /** The persisted ranges fall short of the file, whose first byte is at `offset` of volume `first`. */
  ghost predicate Short(rows: StoredRows, first: nat, offset: int) {
    FileSize(StoredRarSpans(rows.sources, rows.ranges)) < rows.size && BeginsAt(rows, first, offset)
  }

  lemma BeginningIs(rows: StoredRows, first: nat, offset: int)
    requires BeginsAt(rows, first, offset) && rows.volumes != []
    ensures first == StartIndex(rows.volumes, StartPath(rows)) && offset == StartOffset(rows)
  {
    hide VolumeKey;
    var i := FirstMatch(rows.volumes, StartPath(rows));
  }

  lemma RebuiltIsWalk(rows: StoredRows, p: Plan)
    requires AllSegmented(rows.sources) && Short(rows, p.first, p.offset) && p.volumes == rows.volumes
    ensures var ranges := RangesFrom(rows.sources, p, p.first, 0, rows.size);
      && (Rebuilt(rows, p.measured).Some? <==> ranges.Some?)
      && (ranges.Some? ==> Rebuilt(rows, p.measured).value == StoredRarSpans(rows.sources, ranges.value)
                           && ranges.value != [])
  {
    hide StoredRarSpans, HasSegments, StartIndex;
    if rows.volumes != [] {
      BeginningIs(rows, p.first, p.offset);
    }
    RebuiltWheneverReconstructed(rows, p.measured);
    if Rebuilt(rows, p.measured).Some? {
      ReconstructedLayout(rows.sources, rows.volumes, StartPath(rows), StartOffset(rows), p.measured, rows.size);
    }
  }

  lemma RangesContiguous(sources: Sources, p: Plan, size: int)
    requires RangesFrom(sources, p, p.first, 0, size).Some? && 0 <= size && p.first <= |p.volumes|
    ensures Contiguous(RangesFrom(sources, p, p.first, 0, size).value, 0)
  {
    WalkLayout(WalkOf(sources, p), p.first, Max(p.offset, 0), 0, size);
  }

  /** A rebuild with the given offsets is there exactly when the volumes, entered at them, suffice; and then it
      reads their tails, cut at the size. */
  lemma RebuiltServes(store: ArticleStore, rows: StoredRows, p: Plan)
    requires HoldsAll(store, rows.sources) && AllSegmented(rows.sources) && Short(rows, p.first, p.offset)
    requires p.volumes == rows.volumes
    ensures Rebuilt(rows, p.measured).Some? ==> exists k: nat :: Suffice(store, rows.sources, p, p.first, k, rows.size)
    ensures forall k: nat | Suffice(store, rows.sources, p, p.first, k, rows.size) ::
              Rebuilt(rows, p.measured).Some?
              && ReadAll(store, Rebuilt(rows, p.measured).value)
                 == Tails(store, rows.sources, p, p.first, k)[..rows.size]
  {
    hide Rebuilt, RangesFrom, ReadAll, Flat, Chunks, HoldsAll, HaveTails, AllSegmented, BeginsAt, StoredRarSpans, Tails;
    RebuiltIsWalk(rows, p);
    FirstInside(rows, p);
    if Rebuilt(rows, p.measured).Some? {
      var k := WalkNeeds(store, rows.sources, p, p.first, 0, rows.size);
    }
    forall k: nat | Suffice(store, rows.sources, p, p.first, k, rows.size)
      ensures Rebuilt(rows, p.measured).Some?
      ensures ReadAll(store, Rebuilt(rows, p.measured).value)
           == Tails(store, rows.sources, p, p.first, k)[..rows.size]
    {
      var ranges := RangesFrom(rows.sources, p, p.first, 0, rows.size);
      WalkServes(store, rows.sources, p, p.first, k, 0, rows.size);
      RangesContiguous(rows.sources, p, rows.size);
      ContiguousFlat(store, rows.sources, ranges.value);
    }
  }

  lemma FirstInside(rows: StoredRows, p: Plan)
    requires BeginsAt(rows, p.first, p.offset) && p.volumes == rows.volumes
    ensures p.first <= |p.volumes|
  {
  }

  /** When the persisted ranges fall short, the file's bytes are those behind its offset in the first volume,
      followed by those behind the measured offset in every later one, cut at the size, if that suffices;
      otherwise the same with the later volumes read from their beginning, if that suffices; and otherwise the
      loader gives up. */
  lemma ShortServes(store: ArticleStore, rows: StoredRows, first: nat, offset: int)
    requires HoldsAll(store, rows.sources) && AllSegmented(rows.sources) && Short(rows, first, offset)
    ensures var sources, size := rows.sources, rows.size;
      var measured := Plan(rows.volumes, rows.detectedOffsets, first, offset);
      var plain := Plan(rows.volumes, map[], first, offset);
      && (forall k: nat | Suffice(store, sources, measured, first, k, size) ::
            ReadAll(store, Loaded(rows)) == Tails(store, sources, measured, first, k)[..size])
      && ((forall k: nat :: !Suffice(store, sources, measured, first, k, size)) ==>
            && (forall k: nat | Suffice(store, sources, plain, first, k, size) ::
                  ReadAll(store, Loaded(rows)) == Tails(store, sources, plain, first, k)[..size])
            && ((forall k: nat :: !Suffice(store, sources, plain, first, k, size)) ==> Loaded(rows) == []))
  {
    hide Rebuilt, ReadAll, Suffice, Tails, HoldsAll, AllSegmented, StoredRarSpans, FileSize, BeginsAt;
    RebuiltServes(store, rows, Plan(rows.volumes, rows.detectedOffsets, first, offset));
    RebuiltServes(store, rows, Plan(rows.volumes, map[], first, offset));
  }

  // ----- Other entries -----------------------------------------------------------------------------------------------

  /** An entry without a stored_rar layout is a slice of one posted file: it reads the decoded bytes from the
      row's byte offset on, as many as the row says or as there are, and is as long as the row says. */
  lemma DirectServes(store: ArticleStore, row: VfRow, probe: Option<Measured>)
    requires row.kind.DirectNzb? || (row.kind.StoredRarFile? && Loaded(row.stored) == [])
    requires Holds(store, row.messageIds, row.decodedSegmentSize, row.lastDecodedSize)
    requires row.messageIds != [] && row.lastDecodedSize <= row.decodedSegmentSize && row.decodedSegmentSize > 0
    requires row.size > 0
    requires 0 <= row.segmentByteOffset
             < DecodedTotal(|row.messageIds|, row.decodedSegmentSize, row.lastDecodedSize)
    ensures forall i | 0 <= i < |row.messageIds| :: row.messageIds[i] in store
    ensures var bytes := FileBytes(store, row.messageIds, 0);
      && row.segmentByteOffset < |bytes| && Entry(row, probe).size == row.size
      && ReadAll(store, Entry(row, probe).spans)
         == bytes[row.segmentByteOffset..Min(row.segmentByteOffset + row.size, |bytes|)]
  {
    hide Loaded, FileBytes, ReadAll, Spans;
    var n, decoded, last := |row.messageIds|, row.decodedSegmentSize, row.lastDecodedSize;
    StartsInsideTotal(n, decoded, last, row.segmentByteOffset, row.size);
    SpansRead(store, row.messageIds, decoded, last, row.segmentByteOffset, row.size);
  }
}
