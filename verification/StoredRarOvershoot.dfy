/** The persisted ranges supply more than the file holds, and the span table is clipped to the file's
    size (the overshoot branch of `loadStoredRarSpansUncorrected`): exactly when is the result a layout? */
module StoredRarOvershoot {
  import opened SpanLayout
  import opened StoredRar
  import StableSort

  /** Every piece that begins before `size` is gapless. */
  ghost predicate GaplessBelow(pieces: seq<seq<SegmentSpan>>, base: int, size: int) {
    pieces == [] || base >= size ||
    (Gapless(pieces[0]) && GaplessBelow(pieces[1..], base + FileSize(pieces[0]), size))
  }

  /** Every range that begins before `size`, counted in the bytes the ranges before it really supply,
      lays out in its volume. */
  predicate LayOutBelow(sources: Sources, sorted: seq<RangeSource>, base: int, size: int)
  {
    sorted == [] || base >= size ||
    (assert sorted[0] in sorted;
     RangeLaysOut(sources, sorted[0])
     && LayOutBelow(sources, sorted[1..], base + FileSize(RangeSpans(sources, sorted[0])), size))
  }

  lemma {:induction false} BelowAgree(sources: Sources, sorted: seq<RangeSource>, base: int, size: int)
    ensures LayOutBelow(sources, sorted, base, size) <==> GaplessBelow(Pieces(sources, sorted), base, size)
    decreases |sorted|
  {
    hide RangeLaysOut, RangeSpans, FileSize;
    if sorted != [] {
      assert sorted[0] in sorted;
      RangeGaplessExactly(sources, sorted[0]);
      BelowAgree(sources, sorted[1..], base + FileSize(RangeSpans(sources, sorted[0])), size);
      assert Pieces(sources, sorted)[1..] == Pieces(sources, sorted[1..]);
    }
  }

  // ----- Where spans start -----------------------------------------------------------------------------------

  ghost predicate StartFrom(spans: seq<SegmentSpan>, lo: int) {
    forall s | s in spans :: s.start >= lo
  }

  lemma {:induction false} SpansStart(ids: seq<string>, decoded: int, last: int, offset: int, size: int, i: nat)
    ensures StartFrom(SpansFrom(ids, decoded, last, offset, size, i), 0)
    decreases |ids| - i
  {
    if i < |ids| && SegmentStart(decoded, i) < offset + size {
      SpansStart(ids, decoded, last, offset, size, i + 1);
    }
  }

  lemma PiecesStart(sources: Sources, sorted: seq<RangeSource>)
    ensures forall i | 0 <= i < |sorted| :: StartFrom(Pieces(sources, sorted)[i], 0)
  {
    forall i | 0 <= i < |sorted| ensures StartFrom(Pieces(sources, sorted)[i], 0) {
      assert sorted[i] in sorted;
      var key := VolumeKey(sorted[i].volumePath);
      if key in sources && sources[key].decodedSegmentSize > 0 {
        var from, share := From(sorted[i].archiveOffset), Share(sorted[i].archiveOffset, sorted[i].lengthBytes);
        SpansStart(sources[key].messageIds, sources[key].decodedSegmentSize, sources[key].lastDecodedSize,
                   from, share, from / sources[key].decodedSegmentSize);
      }
    }
  }

  lemma RekeyedStart(spans: seq<SegmentSpan>, base: int, id: int)
    requires StartFrom(spans, 0)
    ensures StartFrom(Rekeyed(spans, base, id), base)
  {
    hide Rekeyed;
    var moved := Rekeyed(spans, base, id);
    RekeyedReads(map[], spans, base, id);
    forall k | 0 <= k < |moved| ensures moved[k].start >= base {
      RekeyedAt(spans, base, id, k);
      assert spans[k] in spans;
    }
  }

  lemma SizeNatural(spans: seq<SegmentSpan>)
    ensures FileSize(spans) >= 0
  {
  }

  lemma {:induction false} LaidStart(pieces: seq<seq<SegmentSpan>>, base: int, id: int)
    requires forall i | 0 <= i < |pieces| :: StartFrom(pieces[i], 0)
    ensures StartFrom(Laid(pieces, base, id), base)
  {
    if pieces != [] {
      hide Rekeyed, FileSize, Laid;
      LaidStep(pieces, base, id);
      RekeyedStart(pieces[0], base, id);
      LaidStart(pieces[1..], base + FileSize(pieces[0]), id + |pieces[0]|);
      SizeNatural(pieces[0]);
    } else {
      LaidNothing(base, id);
    }
  }

  // ----- The clipped table is a layout -----------------------------------------------------------------------

  lemma {:induction false} TruncatedFront(front: seq<SegmentSpan>, rest: seq<SegmentSpan>, lo: int, mid: int, size: int)
    requires Tiles(front, lo, mid) && size <= mid && StartFrom(rest, mid)
    ensures Truncated(front + rest, size) == Truncated(front, size)
    decreases |front|
  {
    if front == [] {
      assert front + rest == rest;
      assert rest != [] ==> rest[0] in rest;
    } else {
      assert (front + rest)[1..] == front[1..] + rest;
      TruncatedFront(front[1..], rest, front[0].end, mid, size);
    }
  }

  /** The pieces up to where they reach `size`, all gapless, and the rest. */
  lemma {:induction false} LaidSplit(pieces: seq<seq<SegmentSpan>>, base: int, id: int, size: int)
    returns (front: seq<SegmentSpan>, rest: seq<SegmentSpan>, mid: int)
    requires forall i | 0 <= i < |pieces| :: StartFrom(pieces[i], 0)
    requires GaplessBelow(pieces, base, size)
    ensures Laid(pieces, base, id) == front + rest && Tiles(front, base, mid) && StartFrom(rest, mid)
    ensures mid >= size || rest == []
  {
    hide Laid, StartFrom, FileSize, Rekeyed, Tiles;
    if pieces == [] || base >= size {
      LaidStart(pieces, base, id);
      front, rest, mid := [], Laid(pieces, base, id), base;
      NoSpansTile(base);
    } else {
      var length := FileSize(pieces[0]);
      var more;
      more, rest, mid := LaidSplit(pieces[1..], base + length, id + |pieces[0]|, size);
      RekeyedTiles(pieces[0], 0, length, base, id);
      TilesConcat(Rekeyed(pieces[0], base, id), more, base, base + length, mid);
      front := Rekeyed(pieces[0], base, id) + more;
      LaidStep(pieces, base, id);
      ConcatAssociates(Rekeyed(pieces[0], base, id), more, rest);
    }
    if pieces == [] {
      LaidNothing(base, id);
    }
  }

  lemma NoSpansTile(at: int)
    ensures Tiles([], at, at)
  {
  }

  lemma LaidNothing(base: int, id: int)
    ensures Laid([], base, id) == []
  {
  }

  lemma ClippedTiles(pieces: seq<seq<SegmentSpan>>, size: int)
    requires forall i | 0 <= i < |pieces| :: StartFrom(pieces[i], 0)
    requires GaplessBelow(pieces, 0, size) && 0 <= size
    requires FileSize(StableSort.Sort(Laid(pieces, 0, 0), SpanLess)) >= size
    ensures Tiles(Truncated(StableSort.Sort(Laid(pieces, 0, 0), SpanLess), size), 0, size)
  {
    hide Laid, FileSize, Truncated, GaplessBelow;
    var front, rest, mid := LaidSplit(pieces, 0, 0, size);
    var sortedRest := StableSort.Sort(rest, SpanLess);
    FrontOrdered(front, 0, mid);
    StableSort.SortFront(front, rest, SpanLess);
    TilesFileSize(front, mid);
    forall s | s in sortedRest ensures s.start >= mid {
      StableSort.SortMembers(rest, SpanLess, s);
    }
    assert rest == [] ==> front + sortedRest == front;
    TruncatedFront(front, sortedRest, 0, mid, size);
    TruncatedTiles(front, 0, mid, size);
  }

  lemma FrontOrdered(front: seq<SegmentSpan>, lo: int, mid: int)
    requires Tiles(front, lo, mid)
    ensures StableSort.Ordered(front, SpanLess) && forall s | s in front :: s.start < mid
  {
    forall i, j | 0 <= i < j < |front| ensures !SpanLess(front[j], front[i]) {
      TilesAt(front, lo, mid, i);
      TilesAt(front, lo, mid, j);
    }
    forall s | s in front ensures s.start < mid {
      var i :| 0 <= i < |front| && front[i] == s;
      TilesAt(front, lo, mid, i);
    }
  }

  // ----- The clipped table is no layout -------------------------------------------------------------------------

  /** A span of no bytes that begins before `size`. */
  ghost predicate HasEmptyBelow(spans: seq<SegmentSpan>, size: int) {
    exists s | s in spans :: s.start < size && s.end <= s.start
  }

  lemma {:induction false} LaidKeepsEmptyBelow(sources: Sources, sorted: seq<RangeSource>, base: int, id: int,
                                               size: int)
    requires !LayOutBelow(sources, sorted, base, size)
    ensures HasEmptyBelow(Laid(Pieces(sources, sorted), base, id), size)
    decreases |sorted|
  {
    hide RangeLaysOut, RangeSpans, FileSize, Laid, Rekeyed, HasEmptyBelow;
    var piece := RangeSpans(sources, sorted[0]);
    var pieces := Pieces(sources, sorted);
    assert pieces[0] == piece && pieces[1..] == Pieces(sources, sorted[1..]);
    LaidStep(pieces, base, id);
    var rest := Laid(pieces[1..], base + FileSize(piece), id + |piece|);
    if !RangeLaysOut(sources, sorted[0]) {
      RangeMisplacedSpan(sources, sorted[0]);
      RangeStart(sources, sorted[0]);
      EmptyFirst(piece, base, id, size);
    } else {
      LaidKeepsEmptyBelow(sources, sorted[1..], base + FileSize(piece), id + |piece|, size);
    }
    EmptyBelowEither(Rekeyed(piece, base, id), rest, size);
  }

  lemma EmptyFirst(piece: seq<SegmentSpan>, base: int, id: int, size: int)
    requires piece != [] && piece[0].start == 0 && piece[0].end <= 0 && base < size
    ensures HasEmptyBelow(Rekeyed(piece, base, id), size)
  {
    RekeyedAt(piece, base, id, 0);
    assert Rekeyed(piece, base, id)[0] in Rekeyed(piece, base, id);
  }

  lemma EmptyBelowEither(a: seq<SegmentSpan>, b: seq<SegmentSpan>, size: int)
    ensures HasEmptyBelow(a, size) || HasEmptyBelow(b, size) ==> HasEmptyBelow(a + b, size)
  {
    if s :| s in a && s.start < size && s.end <= s.start {
      assert s in a + b;
    }
    if s :| s in b && s.start < size && s.end <= s.start {
      assert s in a + b;
    }
  }

  /** A range's first span starts at the range's own beginning. */
  lemma RangeStart(sources: Sources, r: RangeSource)
    requires RangeSpans(sources, r) != []
    ensures RangeSpans(sources, r)[0].start == 0
  {
    var source := sources[VolumeKey(r.volumePath)];
    FirstSegment(From(r.archiveOffset), source.decodedSegmentSize);
  }

  /** Clipping an ordered table keeps everything that starts before the clip. */
  lemma {:induction false} TruncatedKeepsEmpty(spans: seq<SegmentSpan>, size: int, s: SegmentSpan)
    requires StableSort.Ordered(spans, SpanLess) && s in spans && s.start < size && s.end <= s.start
    ensures s in Truncated(spans, size)
    decreases |spans|
  {
    var i :| 0 <= i < |spans| && spans[i] == s;
    assert i > 0 ==> !SpanLess(spans[i], spans[0]);
    if i > 0 {
      assert spans[1..][i - 1] == s;
      TruncatedKeepsEmpty(spans[1..], size, s);
    }
  }

  lemma SpanLessIsOrder()
    ensures StableSort.StrictWeakOrder(SpanLess)
  {
  }

  /** The table clipped to `size` is the layout of [0, size) if and only if every range that begins before
      `size` lays out: ranges behind the clip may be as broken as they like. */
  lemma ClippedTilesExactly(sources: Sources, ranges: seq<RangeSource>, size: int)
    requires 0 < size <= FileSize(StoredRarSpans(sources, ranges))
    ensures Tiles(Truncated(StoredRarSpans(sources, ranges), size), 0, size)
            <==> LayOutBelow(sources, SortedRanges(ranges), 0, size)
  {
    hide Laid, FileSize, Truncated, LayOutBelow;
    NonEmptyTable(sources, ranges);
    var sorted, spans := SortedRanges(ranges), StoredRarSpans(sources, ranges);
    var pieces := Pieces(sources, sorted);
    BelowAgree(sources, sorted, 0, size);
    PiecesStart(sources, sorted);
    if LayOutBelow(sources, sorted, 0, size) {
      ClippedTiles(pieces, size);
    } else {
      LaidKeepsEmptyBelow(sources, sorted, 0, 0, size);
      var s :| s in Laid(pieces, 0, 0) && s.start < size && s.end <= s.start;
      StableSort.SortMembers(Laid(pieces, 0, 0), SpanLess, s);
      SpanLessIsOrder();
      StableSort.SortSorts(Laid(pieces, 0, 0), SpanLess);
      TruncatedKeepsEmpty(spans, size, s);
      if Tiles(Truncated(spans, size), 0, size) {
        var k :| 0 <= k < |Truncated(spans, size)| && Truncated(spans, size)[k] == s;
        TilesAt(Truncated(spans, size), 0, size, k);
      }
    }
  }

  lemma NonEmptyTable(sources: Sources, ranges: seq<RangeSource>)
    requires 0 < FileSize(StoredRarSpans(sources, ranges))
    ensures StoredRarSpans(sources, ranges)
        == StableSort.Sort(Laid(Pieces(sources, SortedRanges(ranges)), 0, 0), SpanLess)
  {
  }

  /** Clipping to nothing, or less, leaves no spans. */
  lemma ClippedToNothing(sources: Sources, ranges: seq<RangeSource>, size: int)
    requires size <= 0
    ensures Truncated(StoredRarSpans(sources, ranges), size) == []
  {
    var sorted, spans := SortedRanges(ranges), StoredRarSpans(sources, ranges);
    PiecesStart(sources, sorted);
    LaidStart(Pieces(sources, sorted), 0, 0);
    if spans != [] {
      StableSort.SortMembers(Laid(Pieces(sources, sorted), 0, 0), SpanLess, spans[0]);
    }
  }

  lemma {:induction false} SomeStartAt(pieces: seq<seq<SegmentSpan>>, base: int, id: int)
    requires forall i | 0 <= i < |pieces| && pieces[i] != [] :: pieces[i][0].start == 0
    ensures Laid(pieces, base, id) != [] ==> exists s :: s in Laid(pieces, base, id) && s.start == base
  {
    if pieces != [] {
      LaidStep(pieces, base, id);
      if pieces[0] == [] {
        SomeStartAt(pieces[1..], base, id);
      } else {
        RekeyedAt(pieces[0], base, id, 0);
        assert Rekeyed(pieces[0], base, id)[0] in Laid(pieces, base, id);
      }
    }
  }

  /** Clipping a table that supplies bytes to a positive size leaves something of it. */
  lemma ClippedNonEmpty(sources: Sources, ranges: seq<RangeSource>, size: int)
    requires 0 < size && 0 < FileSize(StoredRarSpans(sources, ranges))
    ensures StoredRarSpans(sources, ranges) != [] && Truncated(StoredRarSpans(sources, ranges), size) != []
  {
    hide Laid, Pieces;
    NonEmptyTable(sources, ranges);
    var sorted, spans := SortedRanges(ranges), StoredRarSpans(sources, ranges);
    var laid := Laid(Pieces(sources, sorted), 0, 0);
    PiecesBegin(sources, sorted);
    SomeStartAt(Pieces(sources, sorted), 0, 0);
    var s :| s in laid && s.start == 0;
    StableSort.SortMembers(laid, SpanLess, s);
    SpanLessIsOrder();
    StableSort.SortSorts(laid, SpanLess);
    var k :| 0 <= k < |spans| && spans[k] == s;
    assert k > 0 ==> !SpanLess(spans[k], spans[0]);
  }

  lemma PiecesBegin(sources: Sources, sorted: seq<RangeSource>)
    ensures forall i | 0 <= i < |Pieces(sources, sorted)| && Pieces(sources, sorted)[i] != [] ::
              Pieces(sources, sorted)[i][0].start == 0
  {
    forall i | 0 <= i < |sorted| && Pieces(sources, sorted)[i] != [] ensures Pieces(sources, sorted)[i][0].start == 0 {
      assert sorted[i] in sorted;
      RangeStart(sources, sorted[i]);
    }
  }
}
