/** Reading the layouts the loader makes: what is returned when the articles are as calibrated, and what
    happens at the end of a clipped layout. */
module StoredRarServing {
  import opened Bytes
  import opened SpanLayout
  import opened StoredRarReader
  import StoredRar

  /** The articles' bytes, which is all that the meaning of a table needs. */
  function Plain(articles: Articles): ArticleStore {
    map id | id in articles :: articles[id].bytes
  }

  /** The article is where the span says and has the bytes the span claims. */
  predicate Backed(articles: Articles, span: SegmentSpan) {
    && span.messageId in articles && articles[span.messageId].position == Some(span.decodedStart)
    && 0 <= span.segmentByteStart && 0 < Length(span)
    && span.segmentByteStart + Length(span) <= |articles[span.messageId].bytes|
  }

  /** The article has more bytes than the span claims, and the span does not know that the entry ends. */
  predicate Open(articles: Articles, span: SegmentSpan) {
    Backed(articles, span) && !span.entryTruncated
    && span.segmentByteStart + Length(span) < |articles[span.messageId].bytes|
  }

  ghost predicate AllBacked(articles: Articles, spans: seq<SegmentSpan>) {
    forall s | s in spans :: Backed(articles, s)
  }

  lemma BackedTurn(articles: Articles, span: SegmentSpan, from: int, to: int)
    requires Backed(articles, span) && span.start <= from < to <= span.end
    ensures var turn := TurnAt(articles, span, from, to);
      && turn == (if to == span.end && Open(articles, span) then Growing(Fetched(Plain(articles), span, from, to))
                  else Passing(Fetched(Plain(articles), span, from, to)))
      && |Fetched(Plain(articles), span, from, to)| == to - from
  {
  }

  lemma BackedReadable(articles: Articles, spans: seq<SegmentSpan>)
    requires AllBacked(articles, spans)
    ensures Readable(Plain(articles), spans)
  {
  }

  // ----- Bytes of a table ----------------------------------------------------------------------------------------

  /** In the bytes of the whole table, each span's bytes stand at the span's start. */
  lemma {:induction false} ReadAllAt(store: ArticleStore, spans: seq<SegmentSpan>, lo: int, hi: int, k: nat)
    requires Tiles(spans, lo, hi) && Readable(store, spans) && k < |spans|
    ensures PartAt(ReadAll(store, spans), spans[k].start - lo, ReadSpan(store, spans[k]))
  {
    hide ReadSpan, PartAt;
    if k == 0 {
      PartAtLeft(ReadSpan(store, spans[0]), ReadAll(store, spans[1..]));
    } else {
      ReadAllAt(store, spans[1..], spans[0].end, hi, k - 1);
      assert spans[0] in spans;
      var first, rest := ReadSpan(store, spans[0]), ReadAll(store, spans[1..]);
      assert ReadAll(store, spans) == first + rest;
      PartAtRight(first, rest, spans[k].start - spans[0].end, ReadSpan(store, spans[k]));
    }
  }

  /** The article bytes behind the positions [current, requestEnd) of the file. */
  function Fetched(store: ArticleStore, span: SegmentSpan, current: int, requestEnd: int): seq<byte> {
    var from := span.segmentByteStart + (current - span.start);
    var to := from + (requestEnd - current);
    if span.messageId in store && 0 <= from <= to <= |store[span.messageId]|
    then store[span.messageId][from..to]
    else []
  }

  lemma FetchedIsSlice(store: ArticleStore, span: SegmentSpan, current: int, requestEnd: int)
    requires |ReadSpan(store, span)| == span.end - span.start
    requires span.start <= current <= requestEnd <= span.end
    ensures Fetched(store, span, current, requestEnd)
         == ReadSpan(store, span)[current - span.start..requestEnd - span.start]
  {
    if span.start < span.end {
      SliceOfSlice(store[span.messageId], span.segmentByteStart, span.segmentByteStart + (span.end - span.start),
                   current - span.start, requestEnd - span.start);
    }
  }

  /** What is fetched for a part of span `k` is that part of the file. */
  lemma FetchedReads(store: ArticleStore, spans: seq<SegmentSpan>, size: int, k: nat, current: int, requestEnd: int)
    requires Tiles(spans, 0, size) && Readable(store, spans) && k < |spans|
    requires spans[k].start <= current <= requestEnd <= spans[k].end
    ensures 0 <= current && requestEnd <= |ReadAll(store, spans)|
    ensures Fetched(store, spans[k], current, requestEnd) == ReadAll(store, spans)[current..requestEnd]
  {
    hide ReadAll, ReadSpan, Fetched, PartAt, Tiles;
    ReadAllLength(store, spans, 0, size);
    TilesAt(spans, 0, size, k);
    ReadAllAt(store, spans, 0, size, k);
    assert spans[k] in spans;
    FetchedFromPart(store, spans[k], ReadAll(store, spans), current, requestEnd);
  }

  lemma FetchedFromPart(store: ArticleStore, span: SegmentSpan, whole: seq<byte>, current: int, requestEnd: int)
    requires PartAt(whole, span.start, ReadSpan(store, span)) && |ReadSpan(store, span)| == span.end - span.start
    requires span.start <= current <= requestEnd <= span.end
    ensures 0 <= current && requestEnd <= |whole|
    ensures Fetched(store, span, current, requestEnd) == whole[current..requestEnd]
  {
    hide PartAt, ReadSpan, Fetched;
    PartAtFits(whole, span.start, ReadSpan(store, span));
    FetchedIsSlice(store, span, current, requestEnd);
    PartOfPart(whole, span.start, ReadSpan(store, span), current - span.start, requestEnd - span.start);
  }

  // ----- Reading a backed table ----------------------------------------------------------------------------------

  /** Every span but the last claims all its article has, or knows that the entry ends. */
  ghost predicate ClosedFront(articles: Articles, spans: seq<SegmentSpan>) {
    forall k | 0 <= k < |spans| - 1 :: !Open(articles, spans[k])
  }

  /** A read of a backed table that may be open at its end: exactly the file's bytes come back, and the table
      changes just when the read gets to an open end. */
  lemma {:induction false} BackedReads(articles: Articles, st: State, current: int, left: int)
    requires Checked(st) && st.valid && 0 <= current && 0 <= left && current + left <= st.size
    requires AllBacked(articles, st.spans) && ClosedFront(articles, st.spans)
    ensures var n := |st.spans|;
      var grows := left > 0 && current + left == st.size && n > 0 && Open(articles, st.spans[n - 1]);
      var out := ReadFrom(articles, st, current, left);
      && out.ending.Filled?
      && out.state == (if grows then Published(st.spans, n - 1, articles[st.spans[n - 1].messageId]) else st)
      && |ReadAll(Plain(articles), st.spans)| >= current + left
      && out.written == ReadAll(Plain(articles), st.spans)[current..current + left]
    decreases left
  {
    hide ReadFrom, ReadAll, Tiles, TurnAt, Backed, Open, Plain, Readable, LooseCount, Fetched, Published, AllBacked,
         ClosedFront, Covering;
    BackedReadable(articles, st.spans);
    WholeLength(articles, st, current, left);
    if left == 0 {
      ReadFromEnds(articles, st, current, left);
    } else {
      ReadFromStep(articles, st, current, left);
      var k := Covering(st.spans, current);
      var span, to := st.spans[k], RequestEnd(st, k, current, left);
      var whole := ReadAll(Plain(articles), st.spans);
      SpanBacked(articles, st.spans, st.size, k);
      BackedTurn(articles, span, current, to);
      FetchedReads(Plain(articles), st.spans, st.size, k, current, to);
      if to == span.end && Open(articles, span) {
        ReadFromEnds(articles, Published(st.spans, k, articles[span.messageId]), to, left - (to - current));
      } else {
        BackedReads(articles, st, to, left - (to - current));
        SliceJoin(whole, current, to, current + left);
        if left == to - current {
          LastEnds(articles, st, k, to);
        }
      }
    }
  }

  lemma WholeLength(articles: Articles, st: State, current: int, left: int)
    requires Checked(st) && st.valid && 0 <= current && 0 <= left && current + left <= st.size
    requires Readable(Plain(articles), st.spans)
    ensures st.size > 0 ==> |ReadAll(Plain(articles), st.spans)| == st.size
    ensures |ReadAll(Plain(articles), st.spans)| >= current + left
  {
    if st.size > 0 {
      ReadAllLength(Plain(articles), st.spans, 0, st.size);
    }
  }

  lemma SpanBacked(articles: Articles, spans: seq<SegmentSpan>, size: int, k: nat)
    requires AllBacked(articles, spans) && ClosedFront(articles, spans) && k < |spans| && Tiles(spans, 0, size)
    ensures Backed(articles, spans[k]) && (Open(articles, spans[k]) ==> k == |spans| - 1 && spans[k].end == size)
  {
    hide Backed, Open;
    assert spans[k] in spans;
    TilesSplit(spans, 0, size, |spans|);
  }

  /** A read that ends at the end of the file ends at the end of the last span. */
  lemma LastEnds(articles: Articles, st: State, k: nat, to: int)
    requires Tiles(st.spans, 0, st.size) && k < |st.spans| && st.spans[k].start < to <= st.spans[k].end
    ensures to == st.size ==> k == |st.spans| - 1 && to == st.spans[k].end
  {
    TilesAt(st.spans, 0, st.size, k);
    TilesAt(st.spans, 0, st.size, |st.spans| - 1);
    TilesSplit(st.spans, 0, st.size, |st.spans|);
  }

  // ----- Closed layouts -----------------------------------------------------------------------------------------

  /** No span of the table is open. */
  ghost predicate Closed(articles: Articles, spans: seq<SegmentSpan>) {
    AllBacked(articles, spans) && forall s | s in spans :: !Open(articles, s)
  }

  /** What a call answers, given the bytes from the offset to the end of the file or of the buffer. */
  function Answer(bytes: seq<byte>, st: State, want: nat): Outcome {
    Outcome(bytes, st, if |bytes| < want then Eof else Filled)
  }

  /** Reading a layout whose articles are as calibrated: exactly the asked part of the file comes back,
      end-of-file is reported exactly when that is less than asked, and the table stays. */
  lemma ClosedReads(articles: Articles, spans: seq<SegmentSpan>, size: int, want: nat, offset: int)
    requires Tiles(spans, 0, size) && Closed(articles, spans) && 0 <= offset < size
    ensures |ReadAll(Plain(articles), spans)| == size
    ensures ReadSpec(articles, Opened(spans, size), want, offset)
         == Answer(ReadAll(Plain(articles), spans)[offset..Min(offset + want, size)], Opened(spans, size), want)
  {
    hide ReadFrom, ReadAll, Tiles, Open, AllBacked, Published, Plain, Readable;
    var st, length := Opened(spans, size), Min(want, size - offset);
    BackedReadable(articles, spans);
    ReadAllLength(Plain(articles), spans, 0, size);
    TilesSplit(spans, 0, size, |spans|);
    ClosedFacts(articles, spans);
    BackedReads(articles, st, offset, length);
  }

  lemma ClosedFacts(articles: Articles, spans: seq<SegmentSpan>)
    requires Closed(articles, spans)
    ensures AllBacked(articles, spans) && ClosedFront(articles, spans)
    ensures spans != [] ==> !Open(articles, spans[|spans| - 1])
  {
    hide Open;
    forall k | 0 <= k < |spans| ensures !Open(articles, spans[k]) {
      assert spans[k] in spans;
    }
  }

  // ----- Clipped layouts ----------------------------------------------------------------------------------------

  /** Clipping keeps the spans before the one at the clip and cuts that one. */
  lemma {:induction false} TruncatedShape(spans: seq<SegmentSpan>, lo: int, hi: int, size: int) returns (k: nat)
    requires Tiles(spans, lo, hi) && lo < size <= hi
    ensures k < |spans| && spans[k].start < size <= spans[k].end
    ensures Truncated(spans, size) == spans[..k] + [spans[k].(end := size)]
  {
    if size <= spans[0].end {
      k := 0;
      TilesSplit(spans, lo, hi, 1);
      assert Truncated(spans[1..], size) == [];
    } else {
      var j := TruncatedShape(spans[1..], spans[0].end, hi, size);
      k := j + 1;
      assert spans[..k] == [spans[0]] + spans[1..][..j];
      assert Truncated(spans, size) == [spans[0]] + Truncated(spans[1..], size);
    }
  }

  /** The clip falls inside a span that does not know that the entry ends. */
  ghost predicate CutsOpen(spans: seq<SegmentSpan>, size: int) {
    exists k | 0 <= k < |spans| :: CutsAt(spans, size, k)
  }

  predicate CutsAt(spans: seq<SegmentSpan>, size: int, k: nat) {
    k < |spans| && spans[k].start < size < spans[k].end && !spans[k].entryTruncated
  }

  lemma ClippedIs(articles: Articles, spans: seq<SegmentSpan>, hi: int, size: int) returns (k: nat)
    requires Tiles(spans, 0, hi) && Closed(articles, spans) && 0 < size <= hi
    ensures k < |spans|
    ensures var clipped := Truncated(spans, size); var n := |clipped|;
      && n == k + 1 && clipped[k] == spans[k].(end := size)
      && AllBacked(articles, clipped) && ClosedFront(articles, clipped)
      && (Open(articles, clipped[k]) <==> CutsAt(spans, size, k))
      && (CutsAt(spans, size, k) ==> size + Growth(articles[spans[k].messageId], clipped[k]) == spans[k].end)
    ensures CutsOpen(spans, size) <==> CutsAt(spans, size, k)
    ensures forall j: nat | CutsAt(spans, size, j) :: j == k
  {
    hide Tiles;
    k := TruncatedShape(spans, 0, hi, size);
    var clipped := Truncated(spans, size);
    forall s | s in clipped ensures Backed(articles, s) {
      assert spans[k] in spans && s in spans[..k] + [spans[k].(end := size)];
    }
    assert forall j | 0 <= j < k :: clipped[j] == spans[j] && spans[j] in spans;
    assert spans[k] in spans;
    forall j: nat | CutsAt(spans, size, j) ensures j == k {
      TilesAt(spans, 0, hi, if j < k then j else k);
    }
  }

  /** Reading a layout that was clipped to the recorded size: the bytes are right, but the first read that
      gets to the end makes the file longer than recorded, if and only if the clip falls inside a span that
      does not know that the entry ends. The file then reaches to the end of that article. */
  lemma ClippedReadsExactly(articles: Articles, spans: seq<SegmentSpan>, hi: int, size: int, want: nat, offset: int)
    requires Tiles(spans, 0, hi) && Closed(articles, spans) && 0 < size <= hi && 0 <= offset < size && 0 < want
    ensures var st := Opened(Truncated(spans, size), size); var out := ReadSpec(articles, st, want, offset);
      && size <= |ReadAll(Plain(articles), spans)|
      && out.written == ReadAll(Plain(articles), spans)[offset..Min(offset + want, size)]
      && (out.state != st <==> offset + want >= size && CutsOpen(spans, size))
      && (out.state != st ==> forall k: nat | CutsAt(spans, size, k) :: size < out.state.size == spans[k].end)
  {
    hide ReadFrom, ReadAll, Tiles, Open, AllBacked, Published, Plain, Readable, Closed, ClosedFront, Growth, Truncated;
    var clipped := Truncated(spans, size);
    var st, length := Opened(clipped, size), Min(want, size - offset);
    var k := ClippedIs(articles, spans, hi, size);
    ClosedFacts(articles, spans);
    BackedReadable(articles, spans);
    TruncatedTiles(spans, 0, hi, size);
    TruncatedReads(Plain(articles), spans, 0, hi, size);
    BackedReads(articles, st, offset, length);
    SliceWithin(ReadAll(Plain(articles), spans)[..size], ReadAll(Plain(articles), spans)[size..], offset,
                offset + length);
    assert ReadAll(Plain(articles), spans)
        == ReadAll(Plain(articles), spans)[..size] + ReadAll(Plain(articles), spans)[size..];
    if Open(articles, clipped[k]) {
      OpenHas(articles, clipped[k]);
      PublishedExactly(clipped, size, k, articles[clipped[k].messageId]);
    }
  }

  lemma OpenHas(articles: Articles, span: SegmentSpan)
    requires Open(articles, span)
    ensures span.messageId in articles
  {
  }

  // ----- The layouts the builder makes ----------------------------------------------------------------------------

  /** The articles are what the calibration assumed: there, of the assumed sizes, one behind the other. */
  ghost predicate Calibrated(articles: Articles, ids: seq<string>, decoded: int, last: int) {
    forall i: nat | i < |ids| ::
      && ids[i] in articles && |articles[ids[i]].bytes| == SegmentSize(|ids|, decoded, last, i)
      && articles[ids[i]].position == Some(SegmentStart(decoded, i))
  }

  /** Each span of such a volume is backed and closed. */
  lemma SpansClosed(articles: Articles, ids: seq<string>, decoded: int, last: int, offset: int, size: int)
    requires Calibrated(articles, ids, decoded, last) && offset >= 0 && LaysOut(|ids|, decoded, last, offset, size)
    ensures Closed(articles, Spans(ids, decoded, last, offset, size))
  {
    var spans := Spans(ids, decoded, last, offset, size);
    if StartsInside(|ids|, decoded, last, offset, size) {
      forall k: nat | k < |spans| ensures Backed(articles, spans[k]) && !Open(articles, spans[k]) {
        SpanClosed(articles, ids, decoded, last, offset, size, k);
      }
    } else {
      SpansNothing(ids, decoded, last, offset, size);
    }
  }

  lemma SpanClosed(articles: Articles, ids: seq<string>, decoded: int, last: int, offset: int, size: int, k: nat)
    requires Calibrated(articles, ids, decoded, last) && StartsInside(|ids|, decoded, last, offset, size)
    requires k < |Spans(ids, decoded, last, offset, size)|
    ensures Backed(articles, Spans(ids, decoded, last, offset, size)[k])
        && !Open(articles, Spans(ids, decoded, last, offset, size)[k])
  {
    hide SpansFrom, SegmentStart, Tiles, DecodedTotal;
    var first := offset / decoded;
    SpansTile(ids, decoded, last, offset, size);
    TilesAt(Spans(ids, decoded, last, offset, size), 0, Min(size, DecodedTotal(|ids|, decoded, last) - offset), k);
    SpansFromAt(ids, decoded, last, offset, size, first, k);
    SegmentEnds(|ids|, decoded, last, first + k);
  }

  ghost predicate AllCalibrated(articles: Articles, sources: StoredRar.Sources) {
    forall key | key in sources ::
      Calibrated(articles, sources[key].messageIds, sources[key].decodedSegmentSize, sources[key].lastDecodedSize)
  }

  lemma {:induction false} RekeyedClosed(articles: Articles, spans: seq<SegmentSpan>, base: int, id: int)
    requires Closed(articles, spans)
    ensures Closed(articles, StoredRar.Rekeyed(spans, base, id))
  {
    if spans != [] {
      assert spans[0] in spans && forall s | s in spans[1..] :: s in spans;
      RekeyedClosed(articles, spans[1..], base, id + 1);
    }
  }

  lemma {:induction false} LaidClosed(articles: Articles, pieces: seq<seq<SegmentSpan>>, base: int, id: int)
    requires forall i | 0 <= i < |pieces| :: Closed(articles, pieces[i])
    ensures Closed(articles, StoredRar.Laid(pieces, base, id))
  {
    hide Backed, Open;
    if pieces != [] {
      RekeyedClosed(articles, pieces[0], base, id);
      LaidClosed(articles, pieces[1..], base + FileSize(pieces[0]), id + |pieces[0]|);
    }
  }

  /** A table built from ranges that lay out, over calibrated volumes, is closed, and its IDs tell its spans
      apart. */
  lemma StoredRarClosed(articles: Articles, sources: StoredRar.Sources, ranges: seq<StoredRar.RangeSource>)
    requires AllCalibrated(articles, sources) && StoredRar.AllLayOut(sources, ranges)
    ensures Closed(articles, StoredRar.StoredRarSpans(sources, ranges))
    ensures DistinctIds(StoredRar.StoredRarSpans(sources, ranges))
  {
    hide Closed, StoredRar.Laid, LaysOut, Calibrated, Tiles;
    StoredRar.StoredRarTiles(sources, ranges);
    if ranges != [] && |sources| > 0 {
      var sorted := StoredRar.SortedRanges(ranges);
      StoredRar.SortedLayOut(sources, ranges);
      forall i | 0 <= i < |sorted| ensures Closed(articles, StoredRar.Pieces(sources, sorted)[i]) {
        assert sorted[i] in sorted;
        RangeClosed(articles, sources, sorted[i]);
      }
      LaidClosed(articles, StoredRar.Pieces(sources, sorted), 0, 0);
    } else {
      NoneClosed(articles);
    }
  }

  lemma NoneClosed(articles: Articles)
    ensures Closed(articles, [])
  {
  }

  lemma RangeClosed(articles: Articles, sources: StoredRar.Sources, r: StoredRar.RangeSource)
    requires AllCalibrated(articles, sources) && StoredRar.RangeLaysOut(sources, r)
    ensures Closed(articles, StoredRar.RangeSpans(sources, r))
  {
    var key := StoredRar.VolumeKey(r.volumePath);
    if key in sources {
      var s := sources[key];
      SpansClosed(articles, s.messageIds, s.decodedSegmentSize, s.lastDecodedSize,
                  From(r.archiveOffset), Share(r.archiveOffset, r.lengthBytes));
    }
  }

  /** From ranges to bytes: over calibrated volumes, a reader of the table built from contiguous ranges inside
      their volumes answers every read with exactly the bytes the ranges name. */
  lemma ContiguousServes(articles: Articles, sources: StoredRar.Sources, ranges: seq<StoredRar.RangeSource>,
                         want: nat, offset: int)
    requires ranges != [] && StoredRar.AllInside(sources, ranges) && StoredRar.Contiguous(ranges, 0)
    requires AllCalibrated(articles, sources) && 0 <= offset < StoredRar.TotalLength(ranges)
    ensures StoredRar.HoldsAll(Plain(articles), sources)
    ensures
      var size := StoredRar.TotalLength(ranges);
      var whole := StoredRar.Flat(StoredRar.Chunks(Plain(articles), sources, ranges));
      var st := Opened(StoredRar.StoredRarSpans(sources, ranges), size);
      && |whole| == size
      && ReadSpec(articles, st, want, offset) == Answer(whole[offset..Min(offset + want, size)], st, want)
  {
    hide ReadSpec, StoredRar.Flat, StoredRar.Chunks, StoredRar.StoredRarSpans, ReadAll, Closed, Answer, Tiles;
    CalibratedHolds(articles, sources);
    StoredRar.ContiguousTiles(sources, ranges);
    StoredRarClosed(articles, sources, ranges);
    StoredRar.ContiguousFlat(Plain(articles), sources, ranges);
    ClosedReads(articles, StoredRar.StoredRarSpans(sources, ranges), StoredRar.TotalLength(ranges), want, offset);
  }

  lemma CalibratedHolds(articles: Articles, sources: StoredRar.Sources)
    requires AllCalibrated(articles, sources)
    ensures StoredRar.HoldsAll(Plain(articles), sources)
  {
  }

  // ----- Examples -----------------------------------------------------------------------------------------------

  const FIRST := SegmentSpan(1, "a", 0, 10, 0, 0, false)
  const SECOND := SegmentSpan(2, "b", 10, 20, 10, 0, false)

  /** A ten-byte article clipped to a recorded size of eight: reading the last four bytes returns them and
      makes the file ten bytes long. */
  lemma ClippedGrowsExample(bytes: seq<byte>)
    requires |bytes| == 10
    ensures var articles: Articles := map["a" := Article(bytes, Some(0))];
      var out := ReadSpec(articles, Opened(Truncated([FIRST], 8), 8), 4, 4);
      out.written == bytes[4..8] && out.state.size == 10 > 8
  {
    var articles: Articles := map["a" := Article(bytes, Some(0))];
    assert Tiles([FIRST], 0, 10);
    assert Backed(articles, FIRST);
    ClippedReadsExactly(articles, [FIRST], 10, 8, 4, 4);
    assert CutsAt([FIRST], 8, 0);
    assert ReadAll(Plain(articles), [FIRST]) == bytes[0..10] + [] == bytes;
  }

  const GROWN := FIRST.(end := 12)
  const LATER := SECOND.(start := 12, end := 22)

  /** The first article has twelve bytes where ten were assumed, and the second really begins at 12, which its
      span does not know. Reading four bytes at 8 finds the two bytes more and moves the second span along, but
      does not correct it. Reading three bytes at 17 from the table this leaves returns bytes 3 to 6 of the
      second article instead of 5 to 8, and leaves the table alone. */
  lemma DriftExample(a: seq<byte>, b: seq<byte>)
    requires |a| == 12 && |b| == 10
    ensures var articles: Articles := map["a" := Article(a, Some(0)), "b" := Article(b, Some(12))];
      var first := ReadSpec(articles, Opened([FIRST, SECOND], 20), 4, 8);
      && first == Outcome(a[8..12], Opened([GROWN, LATER], 22), Filled)
      && ReadSpec(articles, first.state, 3, 17) == Outcome(b[3..6], first.state, Filled)
  {
    FoundExample(a, b);
    MisplacedExample(a, b);
  }

  lemma FoundExample(a: seq<byte>, b: seq<byte>)
    requires |a| == 12 && |b| == 10
    ensures var articles: Articles := map["a" := Article(a, Some(0)), "b" := Article(b, Some(12))];
      ReadSpec(articles, Opened([FIRST, SECOND], 20), 4, 8) == Outcome(a[8..12], Opened([GROWN, LATER], 22), Filled)
  {
    hide ReadFrom, TurnAt;
    var articles: Articles := map["a" := Article(a, Some(0)), "b" := Article(b, Some(12))];
    var st, next := Opened([FIRST, SECOND], 20), Opened([GROWN, LATER], 22);
    TilesTwo(FIRST, SECOND);
    TilesTwo(GROWN, LATER);
    GrownTable(articles["a"]);
    GrowthTurns(articles, a, b);
    assert Covering([FIRST, SECOND], 8) == 0 && Covering([GROWN, LATER], 10) == 0;
    ReadFromStep(articles, st, 8, 4);
    ReadFromStep(articles, next, 10, 2);
    ReadFromEnds(articles, next, 12, 0);
    assert a[8..10] + (a[10..12] + []) == a[8..12];
  }

  lemma GrownTable(a: Article)
    requires |a.bytes| == 12 && a.position == Some(0)
    ensures Realigned([FIRST, SECOND], 0, a) == [GROWN, LATER]
  {
    assert Shifted([SECOND], 2) == [LATER];
  }

  lemma TilesTwo(x: SegmentSpan, y: SegmentSpan)
    requires x.start < x.end == y.start < y.end
    ensures Tiles([x, y], x.start, y.end)
  {
    assert [x, y][1..] == [y];
    assert Tiles([y], y.start, y.end);
  }

  lemma GrowthTurns(articles: Articles, a: seq<byte>, b: seq<byte>)
    requires |a| == 12 && |b| == 10 && "a" in articles && "b" in articles
    requires articles["a"] == Article(a, Some(0)) && articles["b"].bytes == b
    ensures TurnAt(articles, FIRST, 8, 10) == Growing(a[8..10])
    ensures TurnAt(articles, GROWN, 10, 12) == Passing(a[10..12])
    ensures articles["b"].position == Some(10) ==> TurnAt(articles, LATER, 12, 14) == Passing(b[0..2])
    ensures articles["b"].position == Some(12) ==> TurnAt(articles, LATER, 17, 20) == Passing(b[3..6])
  {
  }

  /** With the second article at 10, where its span has it, reading six bytes at 8 splices the two bytes more in
      before it and leaves a file of 22 bytes. */
  lemma GrowthExample(a: seq<byte>, b: seq<byte>)
    requires |a| == 12 && |b| == 10
    ensures var articles: Articles := map["a" := Article(a, Some(0)), "b" := Article(b, Some(10))];
      ReadSpec(articles, Opened([FIRST, SECOND], 20), 6, 8)
        == Outcome(a[8..12] + b[..2], Opened([GROWN, LATER], 22), Filled)
  {
    hide ReadFrom, TurnAt;
    var articles: Articles := map["a" := Article(a, Some(0)), "b" := Article(b, Some(10))];
    var st, next := Opened([FIRST, SECOND], 20), Opened([GROWN, LATER], 22);
    TilesTwo(FIRST, SECOND);
    TilesTwo(GROWN, LATER);
    GrownTable(articles["a"]);
    GrowthTurns(articles, a, b);
    assert Covering([FIRST, SECOND], 8) == 0 && Covering([GROWN, LATER], 10) == 0;
    assert Covering([LATER], 12) == 0 && Covering([GROWN, LATER], 12) == 1;
    ReadFromStep(articles, st, 8, 6);
    ReadFromStep(articles, next, 10, 4);
    ReadFromStep(articles, next, 12, 2);
    ReadFromEnds(articles, next, 14, 0);
    assert a[8..10] + (a[10..12] + (b[0..2] + [])) == a[8..12] + b[..2];
  }

  lemma MisplacedExample(a: seq<byte>, b: seq<byte>)
    requires |a| == 12 && |b| == 10
    ensures var articles: Articles := map["a" := Article(a, Some(0)), "b" := Article(b, Some(12))];
      var st := Opened([GROWN, LATER], 22);
      ReadSpec(articles, st, 3, 17) == Outcome(b[3..6], st, Filled)
  {
    hide ReadFrom, TurnAt;
    var articles: Articles := map["a" := Article(a, Some(0)), "b" := Article(b, Some(12))];
    var st := Opened([GROWN, LATER], 22);
    TilesTwo(GROWN, LATER);
    GrowthTurns(articles, a, b);
    assert Covering([LATER], 17) == 0 && Covering([GROWN, LATER], 17) == 1;
    ReadFromStep(articles, st, 17, 3);
    ReadFromEnds(articles, st, 20, 0);
  }
}
