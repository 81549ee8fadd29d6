/** A file stored uncompressed inside a set of RAR volumes: from its ranges to a span table
    (`buildStoredRarSpans`), and what reading that table gives. */
module StoredRar {
  import opened Bytes
  import opened SpanLayout
  import StableSort
  import Text

  datatype Option<+T> = None | Some(value: T)

  /** The posted segments of one volume. */
  datatype NzbSource = NzbSource(messageIds: seq<string>, decodedSegmentSize: int, lastDecodedSize: int,
                                 fileSizeBytes: int)

  /** A slice of the entry: its place in the entry and in the volume that holds it. */
  datatype RangeSource = RangeSource(volumePath: string, entryOffset: int, archiveOffset: int, lengthBytes: int)

  datatype VolumeMeta = VolumeMeta(path: string, volumeIndex: int)

  type Sources = map<string, NzbSource>

  function VolumeKey(path: string): string { Text.ToLower(Text.TrimSpace(path)) }

  predicate RangeLess(a: RangeSource, b: RangeSource) {
    if a.entryOffset != b.entryOffset then a.entryOffset < b.entryOffset
    else if a.volumePath != b.volumePath then Text.Less(a.volumePath, b.volumePath)
    else a.archiveOffset < b.archiveOffset
  }

  predicate SpanLess(a: SegmentSpan, b: SegmentSpan) {
    if a.start != b.start then a.start < b.start else a.end < b.end
  }

  // ----- buildStoredRarSpans -----------------------------------------------------------------

  /** The spans one range contributes, numbered from 0; none when its volume is unknown. */
  function RangeSpans(sources: Sources, r: RangeSource): seq<SegmentSpan>
  {
    var key := VolumeKey(r.volumePath);
    if key !in sources then []
    else SpansAt(sources[key].messageIds, sources[key].decodedSegmentSize, sources[key].lastDecodedSize,
                 r.archiveOffset, r.lengthBytes)
  }

  /** The same spans moved to `base` and numbered from `id`. */
  function Rekeyed(spans: seq<SegmentSpan>, base: int, id: int): seq<SegmentSpan> {
    if spans == [] then []
    else [spans[0].(start := spans[0].start + base, end := spans[0].end + base, segmentId := id)]
         + Rekeyed(spans[1..], base, id + 1)
  }

  /** Span tables laid end to end by their real lengths, starting at `base`. */
  function Laid(pieces: seq<seq<SegmentSpan>>, base: int, id: int): seq<SegmentSpan> {
    if pieces == [] then []
    else Rekeyed(pieces[0], base, id) + Laid(pieces[1..], base + FileSize(pieces[0]), id + |pieces[0]|)
  }

  /** The table of each range, in the order of the ranges. */
  function Pieces(sources: Sources, ranges: seq<RangeSource>): (pieces: seq<seq<SegmentSpan>>)
  {
    seq(|ranges|, i requires 0 <= i < |ranges| => RangeSpans(sources, ranges[i]))
  }

  function SortedRanges(ranges: seq<RangeSource>): seq<RangeSource> {
    StableSort.Sort(ranges, RangeLess)
  }

  function StoredRarSpans(sources: Sources, ranges: seq<RangeSource>): seq<SegmentSpan> {
    if ranges == [] || |sources| == 0 then []
    else StableSort.Sort(Laid(Pieces(sources, SortedRanges(ranges)), 0, 0), SpanLess)
  }

  /** No range makes the span builder ask for a message ID before the first. */
  ghost predicate InRange(sources: Sources, ranges: seq<RangeSource>) {
    forall r | r in ranges :: RangeInRange(sources, r)
  }

  predicate RangeInRange(sources: Sources, r: RangeSource) {
    var key := VolumeKey(r.volumePath);
    key in sources ==>
      !Overruns(|sources[key].messageIds|, sources[key].decodedSegmentSize, r.archiveOffset, r.lengthBytes)
  }

  method BuildStoredRarSpans(sources: Sources, ranges: seq<RangeSource>) returns (out: seq<SegmentSpan>)
    requires InRange(sources, ranges)
    ensures out == StoredRarSpans(sources, ranges)
  {
    if |ranges| == 0 || |sources| == 0 {
      return [];
    }
    var sorted := SortedRanges(ranges);
    forall r | r in sorted ensures RangeInRange(sources, r) {
      StableSort.SortMembers(ranges, RangeLess, r);
    }
    out := LayRanges(sources, sorted);
    out := StableSort.Sort(out, SpanLess);
  }

  /** The builder's loop over the sorted ranges. */
  method LayRanges(sources: Sources, sorted: seq<RangeSource>) returns (out: seq<SegmentSpan>)
    requires InRange(sources, sorted)
    ensures out == Laid(Pieces(sources, sorted), 0, 0)
  {
    hide RangeSpans, Rekeyed, FileSize, RangeInRange;
    out := [];
    ghost var pieces := Pieces(sources, sorted);
    var nextSegmentId, cumulative := 0, 0;
    for i := 0 to |sorted|
      invariant out + Laid(pieces[i..], cumulative, nextSegmentId) == Laid(pieces, 0, 0)
    {
      assert pieces[i..][0] == pieces[i] && pieces[i..][1..] == pieces[i + 1..];
      assert sorted[i] in sorted && pieces[i] == RangeSpans(sources, sorted[i]);
      LaidStep(pieces[i..], cumulative, nextSegmentId);
      var found, spans := VolumeSpans(sources, sorted[i]);
      if !found {
        continue;
      }
      var volumeStart := cumulative;
      var volumeLen := SpanFileSize(spans);
      var placed;
      placed, nextSegmentId := PlaceSpans(spans, volumeStart, nextSegmentId);
      ConcatAssociates(out, placed, Laid(pieces[i + 1..], volumeStart + volumeLen, nextSegmentId));
      out := out + placed;
      cumulative := volumeStart + volumeLen;
    }
    assert pieces[|sorted|..] == [];
  }

  lemma ConcatAssociates<T>(a: seq<T>, b: seq<T>, c: seq<T>)
    ensures a + (b + c) == (a + b) + c
  {
  }

  /** The lookup that opens the builder's loop body, and the spans of the volume it finds. */
  method VolumeSpans(sources: Sources, item: RangeSource) returns (found: bool, spans: seq<SegmentSpan>)
    requires RangeInRange(sources, item)
    ensures found <==> VolumeKey(item.volumePath) in sources
    ensures spans == RangeSpans(sources, item)
    ensures !found ==> spans == []
  {
    var key := VolumeKey(item.volumePath);
    if key !in sources {
      return false, [];
    }
    var source := sources[key];
    spans := ComputeSpans(source.messageIds, source.decodedSegmentSize, source.lastDecodedSize,
                          item.archiveOffset, item.lengthBytes);
    found := true;
  }

  lemma LaidStep(pieces: seq<seq<SegmentSpan>>, base: int, id: int)
    requires pieces != []
    ensures Laid(pieces, base, id)
         == Rekeyed(pieces[0], base, id) + Laid(pieces[1..], base + FileSize(pieces[0]), id + |pieces[0]|)
    ensures pieces[0] == [] ==> Laid(pieces, base, id) == Laid(pieces[1..], base, id)
  {
  }

  lemma RekeyedStep(spans: seq<SegmentSpan>, j: nat, base: int, id: int)
    requires j < |spans|
    ensures Rekeyed(spans[j..], base, id)
         == [spans[j].(start := spans[j].start + base, end := spans[j].end + base, segmentId := id)]
            + Rekeyed(spans[j + 1..], base, id + 1)
  {
    assert spans[j..][1..] == spans[j + 1..];
  }

  lemma RekeyedNothing(base: int, id: int)
    ensures Rekeyed([], base, id) == []
  {
  }

  /** The inner loop of the builder: move one volume's spans and number them. */
  method PlaceSpans(spans: seq<SegmentSpan>, volumeStart: int, firstId: int)
    returns (out: seq<SegmentSpan>, nextSegmentId: int)
    ensures out == Rekeyed(spans, volumeStart, firstId) && nextSegmentId == firstId + |spans|
  {
    hide Rekeyed;
    out, nextSegmentId := [], firstId;
    assert spans[0..] == spans;
    for j := 0 to |spans|
      invariant nextSegmentId == firstId + j
      invariant out + Rekeyed(spans[j..], volumeStart, nextSegmentId) == Rekeyed(spans, volumeStart, firstId)
    {
      RekeyedStep(spans, j, volumeStart, nextSegmentId);
      var span := spans[j];
      span := span.(start := span.start + volumeStart, end := span.end + volumeStart, segmentId := nextSegmentId);
      nextSegmentId := nextSegmentId + 1;
      out := out + [span];
    }
    assert spans[|spans|..] == [];
    RekeyedNothing(volumeStart, nextSegmentId);
  }

  /** The range contributes a well-formed piece: its volume is unknown, or its arguments lay out. */
  predicate RangeLaysOut(sources: Sources, r: RangeSource)
  {
    var key := VolumeKey(r.volumePath);
    key in sources ==>
      LaysOut(|sources[key].messageIds|, sources[key].decodedSegmentSize, sources[key].lastDecodedSize,
              From(r.archiveOffset), Share(r.archiveOffset, r.lengthBytes))
  }

  ghost predicate AllLayOut(sources: Sources, ranges: seq<RangeSource>)
  {
    forall r | r in ranges :: RangeLaysOut(sources, r)
  }

  lemma RangeGaplessExactly(sources: Sources, r: RangeSource)
    ensures RangeLaysOut(sources, r) <==> Gapless(RangeSpans(sources, r))
  {
    var key := VolumeKey(r.volumePath);
    if key in sources {
      SpansTileExactly(sources[key].messageIds, sources[key].decodedSegmentSize, sources[key].lastDecodedSize,
                       From(r.archiveOffset), Share(r.archiveOffset, r.lengthBytes));
    }
  }

  lemma {:induction false} RekeyedTiles(spans: seq<SegmentSpan>, lo: int, hi: int, base: int, id: int)
    requires Tiles(spans, lo, hi)
    ensures Tiles(Rekeyed(spans, base, id), lo + base, hi + base)
  {
    if spans != [] {
      RekeyedTiles(spans[1..], spans[0].end, hi, base, id + 1);
    }
  }

  lemma {:induction false} RekeyedAt(spans: seq<SegmentSpan>, base: int, id: int, k: nat)
    requires k < |spans|
    ensures |Rekeyed(spans, base, id)| == |spans|
    ensures Rekeyed(spans, base, id)[k]
         == spans[k].(start := spans[k].start + base, end := spans[k].end + base, segmentId := id + k)
  {
    if k > 0 {
      RekeyedAt(spans[1..], base, id + 1, k - 1);
    } else if |spans| > 1 {
      RekeyedAt(spans[1..], base, id + 1, 0);
    }
  }

  lemma {:induction false} RekeyedReads(store: ArticleStore, spans: seq<SegmentSpan>, base: int, id: int)
    ensures ReadAll(store, Rekeyed(spans, base, id)) == ReadAll(store, spans)
    ensures |Rekeyed(spans, base, id)| == |spans|
  {
    if spans != [] {
      RekeyedReads(store, spans[1..], base, id + 1);
    }
  }

  /** The number of bytes the pieces really supply. */
  function LaidLength(pieces: seq<seq<SegmentSpan>>): nat {
    if pieces == [] then 0 else FileSize(pieces[0]) + LaidLength(pieces[1..])
  }

  lemma {:induction false} LaidTiles(pieces: seq<seq<SegmentSpan>>, base: int, id: int)
    requires forall i | 0 <= i < |pieces| :: Gapless(pieces[i])
    ensures Tiles(Laid(pieces, base, id), base, base + LaidLength(pieces))
  {
    if pieces != [] {
      var size := FileSize(pieces[0]);
      RekeyedTiles(pieces[0], 0, size, base, id);
      LaidTiles(pieces[1..], base + size, id + |pieces[0]|);
      TilesConcat(Rekeyed(pieces[0], base, id), Laid(pieces[1..], base + size, id + |pieces[0]|),
                  base, base + size, base + LaidLength(pieces));
    }
  }

  lemma {:induction false} LaidIds(pieces: seq<seq<SegmentSpan>>, base: int, id: int, k: nat)
    requires k < |Laid(pieces, base, id)|
    ensures Laid(pieces, base, id)[k].segmentId == id + k
  {
    if pieces != [] {
      RekeyedReads(map[], pieces[0], base, id);
      if k < |pieces[0]| {
        RekeyedAt(pieces[0], base, id, k);
      } else {
        LaidIds(pieces[1..], base + FileSize(pieces[0]), id + |pieces[0]|, k - |pieces[0]|);
      }
    }
  }

  /** A span table that tiles is already in the order of the final sort. */
  lemma TilesOrdered(spans: seq<SegmentSpan>, lo: int, hi: int)
    requires Tiles(spans, lo, hi)
    ensures StableSort.Sort(spans, SpanLess) == spans
  {
    forall i, j | 0 <= i < j < |spans|
      ensures !SpanLess(spans[j], spans[i])
    {
      TilesAt(spans, lo, hi, i);
      TilesAt(spans, lo, hi, j);
    }
    StableSort.SortOrdered(spans, SpanLess);
  }

  lemma SortedLayOut(sources: Sources, ranges: seq<RangeSource>)
    ensures AllLayOut(sources, ranges) <==> AllLayOut(sources, SortedRanges(ranges))
  {
    forall r | r in ranges ensures r in SortedRanges(ranges) {
      StableSort.SortMembers(ranges, RangeLess, r);
    }
    forall r | r in SortedRanges(ranges) ensures r in ranges {
      StableSort.SortMembers(ranges, RangeLess, r);
    }
  }

  lemma PiecesGapless(sources: Sources, ranges: seq<RangeSource>)
    requires AllLayOut(sources, ranges)
    ensures forall i | 0 <= i < |ranges| :: Gapless(Pieces(sources, ranges)[i])
  {
    forall i | 0 <= i < |ranges|
      ensures Gapless(Pieces(sources, ranges)[i])
    {
      assert ranges[i] in ranges;
      RangeGaplessExactly(sources, ranges[i]);
    }
  }

  /** When every range lays out, the table tiles what the ranges really supply and its spans are
      numbered 0, 1, 2, ... -- whatever the stored entry offsets are and whichever volumes are missing. */
  lemma StoredRarTiles(sources: Sources, ranges: seq<RangeSource>)
    requires AllLayOut(sources, ranges)
    ensures var spans := StoredRarSpans(sources, ranges);
      && Tiles(spans, 0, FileSize(spans))
      && (ranges != [] && |sources| > 0 ==>
            spans == Laid(Pieces(sources, SortedRanges(ranges)), 0, 0)
            && FileSize(spans) == LaidLength(Pieces(sources, SortedRanges(ranges))))
      && forall k | 0 <= k < |spans| :: spans[k].segmentId == k
  {
    if ranges != [] && |sources| > 0 {
      var sorted := SortedRanges(ranges);
      SortedLayOut(sources, ranges);
      PiecesGapless(sources, sorted);
      var pieces := Pieces(sources, sorted);
      var spans := Laid(pieces, 0, 0);
      LaidTiles(pieces, 0, 0);
      TilesOrdered(spans, 0, LaidLength(pieces));
      TilesFileSize(spans, LaidLength(pieces));
      forall k | 0 <= k < |spans|
        ensures spans[k].segmentId == k
      {
        LaidIds(pieces, 0, 0, k);
      }
    }
  }

  /** A span that ends where it starts, or earlier: a table containing one is no layout. */
  ghost predicate HasEmptySpan(spans: seq<SegmentSpan>) {
    exists s | s in spans :: s.end <= s.start
  }

  lemma {:induction false} LaidKeepsEmptySpan(pieces: seq<seq<SegmentSpan>>, base: int, id: int, i: nat)
    requires i < |pieces| && pieces[i] != [] && pieces[i][0].end <= pieces[i][0].start
    ensures HasEmptySpan(Laid(pieces, base, id))
  {
    var first, rest := Rekeyed(pieces[0], base, id), Laid(pieces[1..], base + FileSize(pieces[0]), id + |pieces[0]|);
    if i == 0 {
      RekeyedAt(pieces[0], base, id, 0);
      assert first[0] in first + rest;
    } else {
      LaidKeepsEmptySpan(pieces[1..], base + FileSize(pieces[0]), id + |pieces[0]|, i - 1);
      var s :| s in rest && s.end <= s.start;
      assert s in first + rest;
    }
  }

  lemma RangeMisplacedSpan(sources: Sources, r: RangeSource)
    requires !RangeLaysOut(sources, r)
    ensures RangeSpans(sources, r) != [] && RangeSpans(sources, r)[0].end <= RangeSpans(sources, r)[0].start
  {
    var source := sources[VolumeKey(r.volumePath)];
    SpansMisplaced(source.messageIds, source.decodedSegmentSize, source.lastDecodedSize,
                   From(r.archiveOffset), Share(r.archiveOffset, r.lengthBytes));
  }

  /** The span table is a gapless layout exactly when every range lays out. */
  lemma StoredRarGaplessExactly(sources: Sources, ranges: seq<RangeSource>)
    ensures Gapless(StoredRarSpans(sources, ranges)) <==> AllLayOut(sources, ranges)
  {
    hide StoredRarSpans, Gapless, RangeLaysOut, LaidLength;
    if AllLayOut(sources, ranges) {
      StoredRarTiles(sources, ranges);
      GaplessIs(StoredRarSpans(sources, ranges));
    } else {
      var r :| r in ranges && !RangeLaysOut(sources, r);
      MisplacedEmpty(sources, ranges, r);
      EmptyNotGapless(StoredRarSpans(sources, ranges));
    }
  }

  lemma GaplessIs(spans: seq<SegmentSpan>)
    ensures Gapless(spans) <==> Tiles(spans, 0, FileSize(spans))
  {
  }

  lemma EmptyNotGapless(spans: seq<SegmentSpan>)
    requires HasEmptySpan(spans)
    ensures !Gapless(spans)
  {
    hide Tiles, FileSize;
    if Gapless(spans) {
      var s :| s in spans && s.end <= s.start;
      var k :| 0 <= k < |spans| && spans[k] == s;
      TilesAt(spans, 0, FileSize(spans), k);
    }
  }

  /** A range that does not lay out puts an empty span into the table. */
  lemma MisplacedEmpty(sources: Sources, ranges: seq<RangeSource>, r: RangeSource)
    requires r in ranges && !RangeLaysOut(sources, r)
    ensures HasEmptySpan(StoredRarSpans(sources, ranges))
  {
    hide Laid, RangeSpans, RangeLaysOut, StableSort.Sort;
    var sorted := SortedRanges(ranges);
    var laid := Laid(Pieces(sources, sorted), 0, 0);
    StableSort.SortMembers(ranges, RangeLess, r);
    var i :| 0 <= i < |sorted| && sorted[i] == r;
    RangeMisplacedSpan(sources, r);
    MisplacedKnown(sources, r);
    LaidKeepsEmptySpan(Pieces(sources, sorted), 0, 0, i);
    var s :| s in laid && s.end <= s.start;
    StableSort.SortMembers(laid, SpanLess, s);
  }

  lemma MisplacedKnown(sources: Sources, r: RangeSource)
    requires !RangeLaysOut(sources, r)
    ensures VolumeKey(r.volumePath) in sources && |sources| > 0
  {
  }

  // ----- What the table reads ------------------------------------------------------------------

  ghost predicate HoldsAll(store: ArticleStore, sources: Sources) {
    forall key | key in sources ::
      Holds(store, sources[key].messageIds, sources[key].decodedSegmentSize, sources[key].lastDecodedSize)
  }

  /** The bytes a range names: a slice of its volume, cut at the volume's end; nothing for an unknown
      volume or a range that begins outside it. */
  ghost function RangeBytes(store: ArticleStore, sources: Sources, r: RangeSource): seq<byte>
    requires HoldsAll(store, sources)
  {
    var key := VolumeKey(r.volumePath);
    if key !in sources then []
    else
      var s := sources[key];
      var n := |s.messageIds|;
      var from, share := From(r.archiveOffset), Share(r.archiveOffset, r.lengthBytes);
      if !StartsInside(n, s.decodedSegmentSize, s.lastDecodedSize, from, share) then []
      else
        FileBytesLength(store, s.messageIds, s.decodedSegmentSize, s.lastDecodedSize, 0);
        var total := DecodedTotal(n, s.decodedSegmentSize, s.lastDecodedSize);
        FileBytes(store, s.messageIds, 0)[from..Min(from + share, total)]
  }

  lemma RangeReads(store: ArticleStore, sources: Sources, r: RangeSource)
    requires HoldsAll(store, sources) && RangeLaysOut(sources, r)
    ensures ReadAll(store, RangeSpans(sources, r)) == RangeBytes(store, sources, r)
  {
    var key := VolumeKey(r.volumePath);
    if key in sources {
      var s := sources[key];
      var from, share := From(r.archiveOffset), Share(r.archiveOffset, r.lengthBytes);
      if StartsInside(|s.messageIds|, s.decodedSegmentSize, s.lastDecodedSize, from, share) {
        SpansRead(store, s.messageIds, s.decodedSegmentSize, s.lastDecodedSize, from, share);
      } else {
        SpansNothing(s.messageIds, s.decodedSegmentSize, s.lastDecodedSize, from, share);
      }
    }
  }

  lemma {:induction false} LaidReads(store: ArticleStore, pieces: seq<seq<SegmentSpan>>, chunks: seq<seq<byte>>,
                                     base: int, id: int)
    requires |pieces| == |chunks| && forall i | 0 <= i < |pieces| :: ReadAll(store, pieces[i]) == chunks[i]
    ensures ReadAll(store, Laid(pieces, base, id)) == Flat(chunks)
  {
    if pieces != [] {
      hide Rekeyed, Laid, FileSize, ReadSpan;
      LaidStep(pieces, base, id);
      RekeyedReads(store, pieces[0], base, id);
      LaidReads(store, pieces[1..], chunks[1..], base + FileSize(pieces[0]), id + |pieces[0]|);
      ReadAllConcat(store, Rekeyed(pieces[0], base, id),
                    Laid(pieces[1..], base + FileSize(pieces[0]), id + |pieces[0]|));
    }
  }

  ghost function Flat(chunks: seq<seq<byte>>): seq<byte> {
    if chunks == [] then [] else chunks[0] + Flat(chunks[1..])
  }

  ghost function Chunks(store: ArticleStore, sources: Sources, ranges: seq<RangeSource>): seq<seq<byte>>
    requires HoldsAll(store, sources)
  {
    seq(|ranges|, i requires 0 <= i < |ranges| => RangeBytes(store, sources, ranges[i]))
  }

  /** Reading the span table from end to end yields the ranges' bytes, in entry order. */
  lemma StoredRarReads(store: ArticleStore, sources: Sources, ranges: seq<RangeSource>)
    requires HoldsAll(store, sources) && AllLayOut(sources, ranges)
    requires ranges != [] && |sources| > 0
    ensures ReadAll(store, StoredRarSpans(sources, ranges)) == Flat(Chunks(store, sources, SortedRanges(ranges)))
  {
    SortedLayOut(sources, ranges);
    StoredRarTiles(sources, ranges);
    var sorted := SortedRanges(ranges);
    var pieces := Pieces(sources, sorted);
    forall i | 0 <= i < |sorted|
      ensures ReadAll(store, pieces[i]) == RangeBytes(store, sources, sorted[i])
    {
      assert sorted[i] in sorted;
      RangeReads(store, sources, sorted[i]);
    }
    LaidReads(store, pieces, Chunks(store, sources, sorted), 0, 0);
  }

  /** The ranges cover the entry from `at` on, each starting where the one before it ends. */
  ghost predicate Contiguous(ranges: seq<RangeSource>, at: int) {
    ranges != [] ==> ranges[0].entryOffset == at && Contiguous(ranges[1..], at + ranges[0].lengthBytes)
  }

  function TotalLength(ranges: seq<RangeSource>): int {
    if ranges == [] then 0 else ranges[0].lengthBytes + TotalLength(ranges[1..])
  }

  /** The range is a non-empty slice of a volume whose segments are known. */
  predicate InsideVolume(sources: Sources, r: RangeSource) {
    var key := VolumeKey(r.volumePath);
    && key in sources
    && var s := sources[key];
       && StartsInside(|s.messageIds|, s.decodedSegmentSize, s.lastDecodedSize, r.archiveOffset, r.lengthBytes)
       && r.archiveOffset + r.lengthBytes <= DecodedTotal(|s.messageIds|, s.decodedSegmentSize, s.lastDecodedSize)
  }

  ghost predicate AllInside(sources: Sources, ranges: seq<RangeSource>) {
    forall r | r in ranges :: InsideVolume(sources, r)
  }

  lemma {:induction false} ContiguousAfter(ranges: seq<RangeSource>, at: int, i: nat)
    requires Contiguous(ranges, at) && i < |ranges| && forall r | r in ranges :: r.lengthBytes > 0
    ensures at <= ranges[i].entryOffset && ranges[i].entryOffset + ranges[i].lengthBytes <= at + TotalLength(ranges)
    ensures i > 0 ==> at < ranges[i].entryOffset
    ensures TotalLength(ranges) > 0
  {
    assert ranges[0] in ranges && forall r | r in ranges[1..] :: r in ranges;
    if i > 0 {
      ContiguousAfter(ranges[1..], at + ranges[0].lengthBytes, i - 1);
    } else if |ranges| > 1 {
      ContiguousAfter(ranges[1..], at + ranges[0].lengthBytes, 0);
    }
  }

  lemma {:induction false} ContiguousOrdered(ranges: seq<RangeSource>, at: int)
    requires Contiguous(ranges, at) && forall r | r in ranges :: r.lengthBytes > 0
    ensures StableSort.Ordered(ranges, RangeLess)
  {
    if ranges != [] {
      assert forall r | r in ranges[1..] :: r in ranges;
      ContiguousOrdered(ranges[1..], at + ranges[0].lengthBytes);
      forall j | 1 <= j < |ranges|
        ensures !RangeLess(ranges[j], ranges[0])
      {
        ContiguousAfter(ranges, at, j);
      }
      forall i, j | 0 <= i < j < |ranges|
        ensures !RangeLess(ranges[j], ranges[i])
      {
        if i > 0 {
          assert ranges[1..][i - 1] == ranges[i] && ranges[1..][j - 1] == ranges[j];
        }
      }
    }
  }

  lemma InsidePiece(sources: Sources, r: RangeSource)
    requires InsideVolume(sources, r)
    ensures RangeLaysOut(sources, r) && Tiles(RangeSpans(sources, r), 0, r.lengthBytes)
    ensures FileSize(RangeSpans(sources, r)) == r.lengthBytes
  {
    var s := sources[VolumeKey(r.volumePath)];
    SpansTile(s.messageIds, s.decodedSegmentSize, s.lastDecodedSize, r.archiveOffset, r.lengthBytes);
    TilesFileSize(RangeSpans(sources, r), r.lengthBytes);
  }

  lemma {:induction false} InsideLength(sources: Sources, ranges: seq<RangeSource>)
    requires AllInside(sources, ranges)
    ensures LaidLength(Pieces(sources, ranges)) == TotalLength(ranges)
  {
    if ranges != [] {
      assert ranges[0] in ranges && Pieces(sources, ranges)[0] == RangeSpans(sources, ranges[0]);
      InsidePiece(sources, ranges[0]);
      InsideLength(sources, ranges[1..]);
      assert Pieces(sources, ranges)[1..] == Pieces(sources, ranges[1..]);
    }
  }

  /** Contiguous ranges inside their volumes: the table tiles exactly their total length. */
  lemma ContiguousTiles(sources: Sources, ranges: seq<RangeSource>)
    requires ranges != [] && AllInside(sources, ranges) && Contiguous(ranges, 0)
    ensures AllLayOut(sources, ranges) && SortedRanges(ranges) == ranges
    ensures Tiles(StoredRarSpans(sources, ranges), 0, TotalLength(ranges))
    ensures FileSize(StoredRarSpans(sources, ranges)) == TotalLength(ranges)
  {
    forall r | r in ranges ensures RangeLaysOut(sources, r) {
      InsidePiece(sources, r);
    }
    ContiguousOrdered(ranges, 0);
    StableSort.SortOrdered(ranges, RangeLess);
    InsideLength(sources, ranges);
    assert InsideVolume(sources, ranges[0]);
    assert VolumeKey(ranges[0].volumePath) in sources;
    StoredRarTiles(sources, ranges);
  }

  /** The slice of its volume that a range names. */
  ghost function VolumeSlice(store: ArticleStore, sources: Sources, r: RangeSource): (bytes: seq<byte>)
    requires HoldsAll(store, sources) && InsideVolume(sources, r)
    ensures |bytes| == r.lengthBytes
  {
    var s := sources[VolumeKey(r.volumePath)];
    FileBytesLength(store, s.messageIds, s.decodedSegmentSize, s.lastDecodedSize, 0);
    FileBytes(store, s.messageIds, 0)[r.archiveOffset..r.archiveOffset + r.lengthBytes]
  }

  lemma SliceIsRange(store: ArticleStore, sources: Sources, r: RangeSource)
    requires HoldsAll(store, sources) && InsideVolume(sources, r)
    ensures RangeBytes(store, sources, r) == VolumeSlice(store, sources, r)
  {
  }

  /** Chunk `i` of contiguous chunks sits at the entry offset of range `i`. */
  lemma {:induction false} FlatSlice(ranges: seq<RangeSource>, chunks: seq<seq<byte>>, at: int, i: nat)
    requires |chunks| == |ranges| && i < |ranges| && Contiguous(ranges, at)
    requires forall k | 0 <= k < |ranges| :: |chunks[k]| == ranges[k].lengthBytes
    ensures |Flat(chunks)| == TotalLength(ranges)
    ensures PartAt(Flat(chunks), ranges[i].entryOffset - at, chunks[i])
  {
    PartAtLeft(chunks[0], Flat(chunks[1..]));
    if |ranges| > 1 {
      FlatSlice(ranges[1..], chunks[1..], at + ranges[0].lengthBytes, if i == 0 then 0 else i - 1);
      if i > 0 {
        PartAtRight(chunks[0], Flat(chunks[1..]), ranges[i].entryOffset - at - |chunks[0]|, chunks[i]);
      }
    }
  }

  lemma InsideChunks(store: ArticleStore, sources: Sources, ranges: seq<RangeSource>)
    requires AllInside(sources, ranges) && HoldsAll(store, sources)
    ensures forall k | 0 <= k < |ranges| ::
      InsideVolume(sources, ranges[k])
      && Chunks(store, sources, ranges)[k] == VolumeSlice(store, sources, ranges[k])
      && |Chunks(store, sources, ranges)[k]| == ranges[k].lengthBytes
  {
    forall k | 0 <= k < |ranges|
      ensures InsideVolume(sources, ranges[k])
      ensures Chunks(store, sources, ranges)[k] == VolumeSlice(store, sources, ranges[k])
    {
      assert ranges[k] in ranges;
      SliceIsRange(store, sources, ranges[k]);
    }
  }

  lemma ContiguousFlat(store: ArticleStore, sources: Sources, ranges: seq<RangeSource>)
    requires ranges != [] && AllInside(sources, ranges) && Contiguous(ranges, 0)
    requires HoldsAll(store, sources)
    ensures ReadAll(store, StoredRarSpans(sources, ranges)) == Flat(Chunks(store, sources, ranges))
  {
    ContiguousTiles(sources, ranges);
    assert VolumeKey(ranges[0].volumePath) in sources by {
      assert InsideVolume(sources, ranges[0]);
    }
    StoredRarReads(store, sources, ranges);
  }

  /** Bytes [entryOffset, entryOffset + length) of the virtual file are bytes
      [archiveOffset, archiveOffset + length) of the volume the range names. */
  lemma ContiguousReads(store: ArticleStore, sources: Sources, ranges: seq<RangeSource>, i: nat)
    requires AllInside(sources, ranges) && Contiguous(ranges, 0)
    requires HoldsAll(store, sources) && i < |ranges|
    ensures InsideVolume(sources, ranges[i])
    ensures |ReadAll(store, StoredRarSpans(sources, ranges))| == TotalLength(ranges)
    ensures PartAt(ReadAll(store, StoredRarSpans(sources, ranges)), ranges[i].entryOffset,
                   VolumeSlice(store, sources, ranges[i]))
  {
    hide StoredRarSpans, ReadAll, Flat, VolumeSlice, PartAt, FileBytes, Holds, StartsInside;
    ContiguousFlat(store, sources, ranges);
    InsideChunks(store, sources, ranges);
    FlatSlice(ranges, Chunks(store, sources, ranges), 0, i);
  }
}
