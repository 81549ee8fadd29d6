/** Opening a stored_rar file: choosing a layout (`loadStoredRarSpansUncorrected`), measuring its last
    segment (`verifyLastSpanBoundary`) and caching the result (`loadVFCache`). */
module StoredRarLoad {
  import opened Bytes
  import opened SpanLayout
  import opened StoredRar
  import opened StoredRarRebuild
  import opened StoredRarOvershoot
  import StableSort

  /** What the database and the volume probes tell about one stored_rar file. */
  datatype StoredRows = StoredRows(
    sources: Sources,
    ranges: seq<RangeSource>,
    volumes: seq<VolumeMeta>,
    size: int,
    startVolumePath: string,
    startArchiveOffset: int,
    detectedOffsets: map<string, int>)

  function StartPath(rows: StoredRows): string {
    if rows.ranges != [] then rows.ranges[0].volumePath else rows.startVolumePath
  }

  function StartOffset(rows: StoredRows): int {
    if rows.ranges != [] then rows.ranges[0].archiveOffset else rows.startArchiveOffset
  }

  /** The layout rebuilt with the given continuation offsets, if its size comes out right. */
  function Rebuilt(rows: StoredRows, continuation: map<string, int>): Option<seq<SegmentSpan>> {
    var ranges := Reconstructed(rows.sources, rows.volumes, StartPath(rows), StartOffset(rows), continuation,
                                rows.size);
    if ranges.None? then None
    else
      ReconstructedLayout(rows.sources, rows.volumes, StartPath(rows), StartOffset(rows), continuation, rows.size);
      var spans := StoredRarSpans(rows.sources, ranges.value);
      if FileSize(spans) == rows.size then Some(spans) else None
  }

  /** The layout the loader settles on; empty when it gives up. */
  function Loaded(rows: StoredRows): seq<SegmentSpan> {
    var spans := StoredRarSpans(rows.sources, rows.ranges);
    var size := FileSize(spans);
    if size == rows.size then spans
    else if size > rows.size then Truncated(spans, rows.size)
    else
      var measured := if |rows.detectedOffsets| > 0 then Rebuilt(rows, rows.detectedOffsets) else None;
      if measured.Some? then measured.value
      else
        var assumed := Rebuilt(rows, map[]);
        if assumed.Some? then assumed.value else []
  }

  method LoadStoredRarSpansUncorrected(rows: StoredRows) returns (result: seq<SegmentSpan>)
    requires InRange(rows.sources, rows.ranges)
    ensures result == Loaded(rows)
  {
    var spans := BuildStoredRarSpans(rows.sources, rows.ranges);
    var size := SpanFileSize(spans);
    if size == rows.size {
      return spans;
    }
    if size > rows.size {
      result := TruncateSpans(spans, rows.size);
      return;
    }
    if |rows.detectedOffsets| > 0 {
      var measured := TryRebuild(rows, rows.detectedOffsets);
      if measured.Some? {
        return measured.value;
      }
    }
    var assumed := TryRebuild(rows, map[]);
    if assumed.Some? {
      return assumed.value;
    }
    return [];
  }

  method TryRebuild(rows: StoredRows, continuation: map<string, int>) returns (result: Option<seq<SegmentSpan>>)
    ensures result == Rebuilt(rows, continuation)
  {
    var ranges := ReconstructStoredRarRanges(rows.sources, rows.volumes, StartPath(rows), StartOffset(rows),
                                             continuation, rows.size);
    if ranges.None? {
      return None;
    }
    ReconstructedLayout(rows.sources, rows.volumes, StartPath(rows), StartOffset(rows), continuation, rows.size);
    assert forall r | r in ranges.value :: r.archiveOffset >= 0 && RangeInRange(rows.sources, r);
    var spans := BuildStoredRarSpans(rows.sources, ranges.value);
    var size := SpanFileSize(spans);
    if size == rows.size {
      return Some(spans);
    }
    return None;
  }

  /** A rebuilt layout tiles exactly the file, with no assumption on the persisted ranges. */
  lemma RebuiltTiles(rows: StoredRows, continuation: map<string, int>)
    requires Rebuilt(rows, continuation).Some?
    ensures Tiles(Rebuilt(rows, continuation).value, 0, rows.size)
  {
    var ranges := Reconstructed(rows.sources, rows.volumes, StartPath(rows), StartOffset(rows), continuation,
                                rows.size).value;
    ReconstructedLayout(rows.sources, rows.volumes, StartPath(rows), StartOffset(rows), continuation, rows.size);
    forall r | r in ranges ensures RangeLaysOut(rows.sources, r) {
      WithinLaysOut(rows.sources, r);
    }
    StoredRarTiles(rows.sources, ranges);
  }

  /** The persisted ranges are good enough where the loader uses them: all of them lay out when they
      supply exactly the file, those that begin inside the file when they supply more. */
  predicate PersistedLayOut(rows: StoredRows)
  {
    var size := FileSize(StoredRarSpans(rows.sources, rows.ranges));
    && (size == rows.size ==> forall r | r in rows.ranges :: RangeLaysOut(rows.sources, r))
    && (size > rows.size ==> LayOutBelow(rows.sources, SortedRanges(rows.ranges), 0, rows.size))
  }

  /** A non-empty layout tiles exactly [0, size) if and only if the persisted ranges are good enough where
      they are used; a rebuilt one always does. */
  lemma LoadedTilesExactly(rows: StoredRows)
    requires Loaded(rows) != []
    ensures Tiles(Loaded(rows), 0, rows.size) <==> PersistedLayOut(rows)
  {
    hide Tiles, FileSize, StoredRarSpans, LayOutBelow, RangeLaysOut, Truncated, Reconstructed;
    var spans := StoredRarSpans(rows.sources, rows.ranges);
    var size := FileSize(spans);
    if size == rows.size {
      StoredRarGaplessExactly(rows.sources, rows.ranges);
    } else if size > rows.size {
      if rows.size <= 0 {
        ClippedToNothing(rows.sources, rows.ranges, rows.size);
      } else {
        ClippedTilesExactly(rows.sources, rows.ranges, rows.size);
      }
    } else if |rows.detectedOffsets| > 0 && Rebuilt(rows, rows.detectedOffsets).Some? {
      RebuiltTiles(rows, rows.detectedOffsets);
    } else {
      RebuiltTiles(rows, map[]);
    }
  }

  /** A volume of one ten-byte and one four-byte article, and a second range that starts behind its end at
      byte 16: the ranges' spans are [0, 10) and [10, 8), their file size is the recorded ten, and the loader
      returns them although they are no layout. */
  lemma BrokenLayoutExample(rows: StoredRows)
    requires rows.sources == map["v" := NzbSource(["a", "b"], 10, 4, 14)] && rows.size == 10
    requires rows.ranges == [RangeSource("v", 0, 0, 10), RangeSource("v", 10, 16, 5)]
    ensures Loaded(rows) != [] && !Tiles(Loaded(rows), 0, 10)
  {
    hide Loaded, PersistedLayOut, StoredRarSpans, FileSize, Tiles;
    BrokenSpans(rows);
    LoadedIsPersisted(rows);
    BrokenRange(rows);
    LoadedTilesExactly(rows);
  }

  lemma LoadedIsPersisted(rows: StoredRows)
    requires FileSize(StoredRarSpans(rows.sources, rows.ranges)) == rows.size
    ensures Loaded(rows) == StoredRarSpans(rows.sources, rows.ranges)
  {
  }

  lemma BrokenRange(rows: StoredRows)
    requires rows.sources == map["v" := NzbSource(["a", "b"], 10, 4, 14)] && rows.size == 10
    requires rows.ranges == [RangeSource("v", 0, 0, 10), RangeSource("v", 10, 16, 5)]
    requires FileSize(StoredRarSpans(rows.sources, rows.ranges)) == 10
    ensures !PersistedLayOut(rows)
  {
    hide StoredRarSpans, FileSize;
    assert VolumeKey("v") == "v";
    assert !RangeLaysOut(rows.sources, rows.ranges[1]);
    assert rows.ranges[1] in rows.ranges;
  }

  const GOOD_RANGE := RangeSource("v", 0, 0, 10)
  const BAD_RANGE := RangeSource("v", 10, 16, 5)
  const GOOD_SPAN := SegmentSpan(0, "a", 0, 10, 0, 0, false)
  const BAD_SPAN := SegmentSpan(1, "b", 0, -2, 10, 6, false)

  lemma PlainKey()
    ensures VolumeKey("v") == "v"
  {
  }

  lemma GoodPiece()
    ensures Spans(["a", "b"], 10, 4, 0, 10) == [GOOD_SPAN]
  {
    hide SpansFrom;
    SpansFromStep(["a", "b"], 10, 4, 0, 10, 0);
    SpansFromStep(["a", "b"], 10, 4, 0, 10, 1);
    assert SegmentStart(10, 1) == 10;
  }

  lemma BrokenPieces(sources: Sources)
    requires sources == map["v" := NzbSource(["a", "b"], 10, 4, 14)]
    ensures RangeSpans(sources, GOOD_RANGE) == [GOOD_SPAN] && RangeSpans(sources, BAD_RANGE) == [BAD_SPAN]
  {
    hide VolumeKey, Spans;
    PlainKey();
    GoodPiece();
    SpansNegativeLength();
  }

  lemma BrokenOrder()
    ensures SortedRanges([GOOD_RANGE, BAD_RANGE]) == [GOOD_RANGE, BAD_RANGE]
  {
    StableSort.SortOrdered([GOOD_RANGE, BAD_RANGE], RangeLess);
  }

  lemma LaidOne(s: SegmentSpan, base: int, id: int)
    ensures Laid([[s]], base, id) == [s.(start := s.start + base, end := s.end + base, segmentId := id)]
  {
    RekeyedAt([s], base, id, 0);
    LaidStep([[s]], base, id);
    assert [[s]][1..] == [] && Laid([], base + FileSize([s]), id + 1) == [];
  }

  lemma LaidTwo(s: SegmentSpan, next: SegmentSpan)
    ensures Laid([[s], [next]], 0, 0)
         == [s.(segmentId := 0)] + Laid([[next]], FileSize([s]), 1)
  {
    hide FileSize;
    LaidStep([[s], [next]], 0, 0);
    RekeyedAt([s], 0, 0, 0);
    assert [[s], [next]][1..] == [[next]];
  }

  lemma BrokenLaid()
    ensures var laid := Laid([[GOOD_SPAN], [BAD_SPAN]], 0, 0);
      && laid == [GOOD_SPAN, BAD_SPAN.(start := 10, end := 8)]
      && StableSort.Sort(laid, SpanLess) == laid && FileSize(laid) == 10
  {
    hide Laid, StableSort.Sort;
    var moved := BAD_SPAN.(start := 10, end := 8);
    LaidTwo(GOOD_SPAN, BAD_SPAN);
    assert FileSize([GOOD_SPAN]) == 10;
    LaidOne(BAD_SPAN, 10, 1);
    StableSort.SortOrdered([GOOD_SPAN, moved], SpanLess);
    FileSizeIsMaximum([GOOD_SPAN, moved]);
  }

  lemma BrokenSpans(rows: StoredRows)
    requires rows.sources == map["v" := NzbSource(["a", "b"], 10, 4, 14)]
    requires rows.ranges == [RangeSource("v", 0, 0, 10), RangeSource("v", 10, 16, 5)]
    ensures StoredRarSpans(rows.sources, rows.ranges)
         == [SegmentSpan(0, "a", 0, 10, 0, 0, false), SegmentSpan(1, "b", 10, 8, 10, 6, false)]
    ensures FileSize(StoredRarSpans(rows.sources, rows.ranges)) == 10
  {
    hide RangeSpans, SortedRanges, Laid, FileSize;
    BrokenPieces(rows.sources);
    BrokenOrder();
    BrokenLaid();
    assert Pieces(rows.sources, [GOOD_RANGE, BAD_RANGE]) == [[GOOD_SPAN], [BAD_SPAN]];
  }

  /** With segment data for every volume the size check on a rebuilt layout never fails. */
  lemma RebuiltWheneverReconstructed(rows: StoredRows, continuation: map<string, int>)
    requires forall key | key in rows.sources :: HasSegments(rows.sources[key])
    ensures Rebuilt(rows, continuation).Some?
       <==> Reconstructed(rows.sources, rows.volumes, StartPath(rows), StartOffset(rows), continuation, rows.size).Some?
  {
    if Reconstructed(rows.sources, rows.volumes, StartPath(rows), StartOffset(rows), continuation, rows.size).Some? {
      ReconstructedTiles(rows.sources, rows.volumes, StartPath(rows), StartOffset(rows), continuation, rows.size);
    }
  }

  /** The loader gives up on a non-empty file exactly when the persisted ranges fall short and neither
      the measured nor the assumed continuation offsets let the volumes cover the file. */
  lemma LoadedGivesUpExactly(rows: StoredRows)
    requires rows.size > 0
    requires forall key | key in rows.sources :: HasSegments(rows.sources[key])
    ensures Loaded(rows) == [] <==>
      && FileSize(StoredRarSpans(rows.sources, rows.ranges)) < rows.size
      && Reconstructed(rows.sources, rows.volumes, StartPath(rows), StartOffset(rows), map[], rows.size).None?
      && (rows.detectedOffsets != map[] ==>
            Reconstructed(rows.sources, rows.volumes, StartPath(rows), StartOffset(rows), rows.detectedOffsets,
                          rows.size).None?)
  {
    hide FileSize, StoredRarSpans, Truncated, Reconstructed, HasSegments;
    RebuiltWheneverReconstructed(rows, map[]);
    RebuiltWheneverReconstructed(rows, rows.detectedOffsets);
    if FileSize(StoredRarSpans(rows.sources, rows.ranges)) >= rows.size {
      ClippedNonEmpty(rows.sources, rows.ranges, rows.size);
    }
    if Rebuilt(rows, map[]).Some? {
      RebuiltTiles(rows, map[]);
    }
    if Rebuilt(rows, rows.detectedOffsets).Some? {
      RebuiltTiles(rows, rows.detectedOffsets);
    }
  }

  // ----- verifyLastSpanBoundary -------------------------------------------------------------------

  /** Where the probed article really begins and ends in its decoded file. */
  datatype Measured = Measured(start: int, end: int)

  /** How many bytes of the probed article lie past the span's own start in it. */
  function Available(span: SegmentSpan, actual: Measured): int {
    Max(actual.end - actual.start - span.segmentByteStart, 0)
  }

  /** The table after the probe; `None` when the probe could not be made or failed. */
  function Verified(spans: seq<SegmentSpan>, probe: Option<Measured>): seq<SegmentSpan>
    requires spans != []
  {
    var last := spans[|spans| - 1];
    if probe.None? || last.end <= last.start || Available(last, probe.value) >= last.end - last.start then spans
    else
      spans[..|spans| - 1]
      + [last.(decodedStart := probe.value.start, end := last.start + Available(last, probe.value))]
  }

  method VerifyLastSpanBoundary(spans: seq<SegmentSpan>, probe: Option<Measured>) returns (corrected: seq<SegmentSpan>)
    requires spans != []
    ensures corrected == Verified(spans, probe)
  {
    var last := |spans| - 1;
    var span := spans[last];
    var length := span.end - span.start;
    if length <= 0 || probe.None? {
      return spans;
    }
    var actual := probe.value;
    var available := actual.end - actual.start - span.segmentByteStart;
    if available < 0 {
      available := 0;
    }
    if available >= length {
      return spans;
    }
    corrected := spans[last := span.(decodedStart := actual.start, end := span.start + available)];
  }

  /** The correction touches the last span only, and only ever shortens it. */
  lemma VerifiedShrinks(spans: seq<SegmentSpan>, probe: Option<Measured>, hi: int)
    requires spans != [] && Tiles(spans, 0, hi)
    ensures var corrected, last := Verified(spans, probe), |spans| - 1;
      && |corrected| == |spans| && corrected[..last] == spans[..last]
      && corrected[last].start == spans[last].start <= corrected[last].end <= spans[last].end
      && Tiles(corrected[..last], 0, corrected[last].start)
      && FileSize(corrected) == corrected[last].end
      && corrected[last].messageId == spans[last].messageId
      && corrected[last].segmentByteStart == spans[last].segmentByteStart
      && corrected[last].decodedStart
         == if corrected[last].end < spans[last].end then probe.value.start else spans[last].decodedStart
  {
    var corrected, last := Verified(spans, probe), |spans| - 1;
    TilesAt(spans, 0, hi, last);
    TilesSplit(spans, 0, hi, last);
    assert corrected[..last] == spans[..last];
    FileSizeAfterTiles(corrected[..last], corrected[last]);
    assert corrected == corrected[..last] + [corrected[last]];
  }

  lemma FileSizeAfterTiles(front: seq<SegmentSpan>, last: SegmentSpan)
    requires Tiles(front, 0, last.start) && last.start <= last.end
    ensures FileSize(front + [last]) == last.end
  {
    TilesFileSize(front, last.start);
    TilesSplit(front, 0, last.start, |front|);
    FileSizeIsMaximum(front);
    FileSizeIsMaximum(front + [last]);
    assert last in front + [last];
    forall s | s in front + [last] ensures s.end <= last.end {}
  }

  /** The reader accepts the corrected layout unless the probe empties the last of several spans: then
      the table keeps an empty span and every read is refused. */
  lemma VerifiedAcceptedExactly(spans: seq<SegmentSpan>, probe: Option<Measured>, hi: int)
    requires spans != [] && Tiles(spans, 0, hi)
    ensures var corrected := Verified(spans, probe);
      (FileSize(corrected) == 0 || Tiles(corrected, 0, FileSize(corrected)))
      <==> probe.None? || |spans| == 1 || Available(spans[|spans| - 1], probe.value) > 0
  {
    var corrected, last := Verified(spans, probe), |spans| - 1;
    VerifiedShrinks(spans, probe, hi);
    TilesAt(spans, 0, hi, last);
    assert corrected == corrected[..last] + [corrected[last]];
    if corrected[last].end > corrected[last].start {
      TilesConcat(corrected[..last], [corrected[last]], 0, corrected[last].start, corrected[last].end);
    } else {
      if |spans| > 1 {
        TilesAt(spans, 0, hi, 0);
        if Tiles(corrected, 0, FileSize(corrected)) {
          TilesAt(corrected, 0, FileSize(corrected), last);
        }
      }
    }
  }

  /** Two spans of ten and four bytes, and a probe that finds the last article empty: the correction leaves an
      empty span, and the reader refuses the file. */
  lemma EmptiedLastSpanExample()
    ensures var spans := [SegmentSpan(0, "a", 0, 10, 0, 0, false), SegmentSpan(1, "b", 10, 14, 10, 0, false)];
      var corrected := Verified(spans, Some(Measured(10, 10)));
      corrected[1].start == corrected[1].end == FileSize(corrected) == 10 && !Tiles(corrected, 0, 10)
  {
    var spans := [SegmentSpan(0, "a", 0, 10, 0, 0, false), SegmentSpan(1, "b", 10, 14, 10, 0, false)];
    var probe := Some(Measured(10, 10));
    assert spans[1..] == [spans[1]] && Tiles([spans[1]], 10, 14);
    assert Tiles(spans, 0, 14);
    VerifiedShrinks(spans, probe, 14);
    VerifiedAcceptedExactly(spans, probe, 14);
  }

  /** After a truthful probe every span reads as many bytes as it claims, if all but the last did. */
  lemma VerifiedReadable(store: ArticleStore, spans: seq<SegmentSpan>, actual: Measured, hi: int)
    requires spans != [] && Tiles(spans, 0, hi)
    requires var last := spans[|spans| - 1];
      last.messageId in store && |store[last.messageId]| == actual.end - actual.start && last.segmentByteStart >= 0
      && last.segmentByteStart <= |store[last.messageId]|
    requires Readable(store, spans[..|spans| - 1])
    ensures Readable(store, Verified(spans, Some(actual)))
  {
    hide ReadSpan, Tiles, FileSize;
    var corrected, last := Verified(spans, Some(actual)), |spans| - 1;
    VerifiedShrinks(spans, Some(actual), hi);
    TilesAt(spans, 0, hi, last);
    LastReadable(store, corrected[last], Available(spans[last], actual));
    forall s | s in corrected
      ensures |ReadSpan(store, s)| == s.end - s.start
    {
      var k :| 0 <= k < |corrected| && corrected[k] == s;
      if k < last {
        assert corrected[..last][k] == s;
        assert s in spans[..last];
      }
    }
  }

  lemma LastReadable(store: ArticleStore, s: SegmentSpan, available: int)
    requires s.messageId in store && 0 <= s.segmentByteStart
    requires 0 <= s.end - s.start <= available
    requires s.segmentByteStart + available == |store[s.messageId]|
    ensures |ReadSpan(store, s)| == s.end - s.start
  {
  }

  // ----- loadVFCache ----------------------------------------------------------------------------------

  datatype ReaderKind = DirectNzb | StoredRarFile | Inline

  /** The virtual_files row with its nzb_files columns. */
  datatype VfRow = VfRow(kind: ReaderKind, size: int, segmentByteOffset: int, messageIds: seq<string>,
                         decodedSegmentSize: int, lastDecodedSize: int, stored: StoredRows)

  datatype CachedVf = CachedVf(kind: ReaderKind, size: int, spans: seq<SegmentSpan>)

  /** The program does not run off the front of a message-ID list on this row. */
  ghost predicate ValidRow(row: VfRow) {
    && InRange(row.stored.sources, row.stored.ranges)
    && !Overruns(|row.messageIds|, row.decodedSegmentSize, row.segmentByteOffset, row.size)
  }

  /** The entry cached for a row. */
  function Entry(row: VfRow, probe: Option<Measured>): CachedVf {
    var loaded := if row.kind == StoredRarFile then Loaded(row.stored) else [];
    if loaded != [] then CachedVf(row.kind, FileSize(Verified(loaded, probe)), Verified(loaded, probe))
    else if row.kind == Inline then CachedVf(row.kind, row.size, [])
    else CachedVf(row.kind, row.size,
                  SpansAt(row.messageIds, row.decodedSegmentSize, row.lastDecodedSize, row.segmentByteOffset, row.size))
  }

  class VfCache {
    var entries: map<int, CachedVf>

    constructor ()
      ensures entries == map[]
    {
      entries := map[];
    }

    /** A hit returns the cached entry and changes nothing; a miss computes and remembers it. */
    method Load(id: int, row: VfRow, probe: Option<Measured>) returns (entry: CachedVf)
      requires ValidRow(row)
      modifies this
      ensures id in old(entries) ==> entry == old(entries)[id] && entries == old(entries)
      ensures id !in old(entries) ==> entry == Entry(row, probe) && entries == old(entries)[id := entry]
    {
      if id in entries {
        return entries[id];
      }
      entry := CachedVf(row.kind, row.size, []);
      if row.kind == StoredRarFile {
        var spans := LoadStoredRarSpansUncorrected(row.stored);
        if |spans| > 0 {
          spans := VerifyLastSpanBoundary(spans, probe);
          var size := SpanFileSize(spans);
          entry := entry.(spans := spans, size := size);
        }
      }
      if |entry.spans| == 0 && row.kind != Inline {
        var spans := ComputeSpans(row.messageIds, row.decodedSegmentSize, row.lastDecodedSize, row.segmentByteOffset,
                                  entry.size);
        entry := entry.(spans := spans);
      }
      entries := entries[id := entry];
    }

    /** Calibration drops every entry. A load that has read the old rows may still store its own behind it:
        see `VfCacheRace`. */
    method Invalidate()
      modifies this
      ensures entries == map[]
    {
      entries := map[];
    }
  }

  /** A cached stored_rar layout has the size its spans imply, never more than the file's recorded
      size, and the reader accepts it exactly when the probe left the last of several spans something. */
  lemma EntryServable(row: VfRow, probe: Option<Measured>)
    requires row.kind == StoredRarFile && Loaded(row.stored) != []
    requires PersistedLayOut(row.stored)
    ensures var entry, last := Entry(row, probe), Loaded(row.stored)[|Loaded(row.stored)| - 1];
      && entry.size == FileSize(entry.spans) <= row.stored.size
      && (probe.None? ==> entry.size == row.stored.size)
      && (entry.size == 0 || Tiles(entry.spans, 0, entry.size)
          <==> probe.None? || |Loaded(row.stored)| == 1 || Available(last, probe.value) > 0)
  {
    var loaded := Loaded(row.stored);
    LoadedTilesExactly(row.stored);
    VerifiedShrinks(loaded, probe, row.stored.size);
    VerifiedAcceptedExactly(loaded, probe, row.stored.size);
    TilesAt(loaded, 0, row.stored.size, |loaded| - 1);
    TilesSplit(loaded, 0, row.stored.size, |loaded|);
  }
}
