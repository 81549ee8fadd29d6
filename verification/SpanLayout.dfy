/** The span table of a virtual file: which decoded Usenet segment supplies which bytes.
    Models `computeSpans`, `spanFileSize`, `truncateSpans` and the layout check of the reader. */
module SpanLayout {
  import opened Bytes

  /** One segment's placement inside a virtual file. */
  datatype SegmentSpan = SegmentSpan(
    segmentId: int,
    messageId: string,
    start: int,
    end: int,
    decodedStart: int,
    segmentByteStart: int,
    entryTruncated: bool)

  /** The decoded bytes of every article, by message ID. */
  type ArticleStore = map<string, seq<byte>>

  function Min(a: int, b: int): int { if a < b then a else b }

  function Max(a: int, b: int): int { if a > b then a else b }

  // ----- What a span table means ---------------------------------------------------------

  /** The spans fill [lo, hi) from left to right: no gap, no overlap, no empty span. */
  ghost predicate Tiles(spans: seq<SegmentSpan>, lo: int, hi: int) {
    if spans == [] then lo == hi
    else spans[0].start == lo && lo < spans[0].end && Tiles(spans[1..], spans[0].end, hi)
  }

  /** The bytes of an article a span stands for; nothing when it points outside the article. */
  function ReadSpan(store: ArticleStore, span: SegmentSpan): seq<byte> {
    var from, to := span.segmentByteStart, span.segmentByteStart + (span.end - span.start);
    if span.messageId in store && 0 <= from <= to <= |store[span.messageId]|
    then store[span.messageId][from..to]
    else []
  }

  /** The bytes a reader gets by walking the whole table. */
  function ReadAll(store: ArticleStore, spans: seq<SegmentSpan>): seq<byte> {
    if spans == [] then [] else ReadSpan(store, spans[0]) + ReadAll(store, spans[1..])
  }

  lemma {:induction false} TilesConcat(a: seq<SegmentSpan>, b: seq<SegmentSpan>, lo: int, mid: int, hi: int)
    requires Tiles(a, lo, mid) && Tiles(b, mid, hi)
    ensures Tiles(a + b, lo, hi)
  {
    if a == [] {
      assert a + b == b;
    } else {
      TilesConcat(a[1..], b, a[0].end, mid, hi);
      assert (a + b)[1..] == a[1..] + b;
    }
  }

  /** Cutting a tiling at span `k` gives two tilings that meet at the cut. */
  lemma {:induction false} TilesSplit(spans: seq<SegmentSpan>, lo: int, hi: int, k: nat)
    requires Tiles(spans, lo, hi) && k <= |spans|
    ensures var mid := if k < |spans| then spans[k].start else hi;
      && lo <= mid <= hi && (k > 0 ==> lo < mid && spans[k - 1].end == mid)
      && Tiles(spans[..k], lo, mid) && Tiles(spans[k..], mid, hi)
  {
    if k == 0 {
      assert spans[0..] == spans;
      if spans != [] {
        TilesSplit(spans[1..], spans[0].end, hi, 0);
      }
    } else {
      TilesSplit(spans[1..], spans[0].end, hi, k - 1);
      assert spans[..k][1..] == spans[1..][..k - 1];
      assert spans[1..][k - 1..] == spans[k..];
    }
  }

  /** In a tiling, span `k` is non-empty and lies inside the tiled interval, left of span `j > k`. */
  lemma TilesAt(spans: seq<SegmentSpan>, lo: int, hi: int, k: nat)
    requires Tiles(spans, lo, hi) && k < |spans|
    ensures lo <= spans[k].start < spans[k].end <= hi
    ensures forall j | k < j < |spans| :: spans[k].end <= spans[j].start
  {
    TilesSplit(spans, lo, hi, k);
    TilesSplit(spans, lo, hi, k + 1);
    forall j | k < j < |spans|
      ensures spans[k].end <= spans[j].start
    {
      TilesSplit(spans[k + 1..], spans[k].end, hi, j - k - 1);
    }
  }

  /** A table that tiles tells how long it is in only one way. */
  lemma {:induction false} TilesUnique(spans: seq<SegmentSpan>, lo: int, hi: int, hi': int)
    requires Tiles(spans, lo, hi) && Tiles(spans, lo, hi')
    ensures hi == hi'
  {
    if spans != [] {
      TilesUnique(spans[1..], spans[0].end, hi, hi');
    }
  }

  lemma {:induction false} ReadAllConcat(store: ArticleStore, a: seq<SegmentSpan>, b: seq<SegmentSpan>)
    ensures ReadAll(store, a + b) == ReadAll(store, a) + ReadAll(store, b)
  {
    if a == [] {
      assert a + b == b;
    } else {
      ReadAllConcat(store, a[1..], b);
      assert (a + b)[1..] == a[1..] + b;
    }
  }

  // ----- spanFileSize ----------------------------------------------------------------------

  /** The largest `end` of any span, and 0 for an empty table. */
  method SpanFileSize(spans: seq<SegmentSpan>) returns (end: int)
    ensures end == FileSize(spans)
  {
    end := 0;
    for i := 0 to |spans|
      invariant end >= 0 && Max(end, FileSize(spans[i..])) == FileSize(spans)
    {
      assert spans[i..][1..] == spans[i + 1..];
      if spans[i].end > end {
        end := spans[i].end;
      }
    }
  }

  function FileSize(spans: seq<SegmentSpan>): (size: int)
    ensures size >= 0
  {
    if spans == [] then 0 else Max(spans[0].end, FileSize(spans[1..]))
  }

  /** `size` bounds every end, and some span reaches it unless it is 0. */
  lemma {:induction false} FileSizeIsMaximum(spans: seq<SegmentSpan>)
    ensures forall s | s in spans :: s.end <= FileSize(spans)
    ensures FileSize(spans) == 0 || exists s | s in spans :: s.end == FileSize(spans)
  {
    if spans != [] {
      FileSizeIsMaximum(spans[1..]);
      assert spans == [spans[0]] + spans[1..];
      if FileSize(spans) != 0 {
        if spans[0].end >= FileSize(spans[1..]) {
          assert spans[0] in spans;
        } else {
          var s :| s in spans[1..] && s.end == FileSize(spans[1..]);
          assert s in spans;
        }
      }
    }
  }

  /** For a tiling that starts at 0, the file size is the end of the tiling. */
  lemma TilesFileSize(spans: seq<SegmentSpan>, hi: int)
    requires Tiles(spans, 0, hi)
    ensures FileSize(spans) == hi
  {
    TilesSplit(spans, 0, hi, |spans|);
    FileSizeIsMaximum(spans);
    if spans != [] {
      assert spans[|spans| - 1] in spans;
      forall s | s in spans ensures s.end <= hi {
        var k :| 0 <= k < |spans| && spans[k] == s;
        TilesAt(spans, 0, hi, k);
      }
    }
  }

  /** The table is a gapless layout of a whole virtual file, whatever the size. */
  ghost predicate Gapless(spans: seq<SegmentSpan>) {
    Tiles(spans, 0, FileSize(spans))
  }

  // ----- validateStoredRarSpans ------------------------------------------------------------

  /** The reader's acceptance test for a layout: it accepts exactly the tilings of [0, size),
      and any table at all when the size is 0. */
  method ValidateStoredRarSpans(spans: seq<SegmentSpan>, size: int) returns (valid: bool)
    ensures valid <==> size == 0 || (size > 0 && Tiles(spans, 0, size))
  {
    if size < 0 {
      return false;
    }
    if size == 0 {
      return true;
    }
    if |spans| == 0 {
      return false;
    }
    var expectedStart := 0;
    for i := 0 to |spans|
      invariant Tiles(spans, 0, size) <==> Tiles(spans[i..], expectedStart, size)
    {
      assert spans[i..][1..] == spans[i + 1..];
      if spans[i].start != expectedStart || spans[i].end <= spans[i].start {
        return false;
      }
      expectedStart := spans[i].end;
    }
    if expectedStart != size {
      return false;
    }
    return true;
  }

  // ----- truncateSpans ---------------------------------------------------------------------

  function Truncated(spans: seq<SegmentSpan>, size: int): seq<SegmentSpan> {
    if spans == [] || spans[0].start >= size then []
    else [spans[0].(end := Min(spans[0].end, size))] + Truncated(spans[1..], size)
  }

  method TruncateSpans(spans: seq<SegmentSpan>, size: int) returns (out: seq<SegmentSpan>)
    ensures out == Truncated(spans, size)
  {
    out := [];
    for i := 0 to |spans|
      invariant out + Truncated(spans[i..], size) == Truncated(spans, size)
    {
      var span := spans[i];
      assert spans[i..][1..] == spans[i + 1..];
      if span.start >= size {
        return;
      }
      if span.end > size {
        span := span.(end := size);
      }
      out := out + [span];
    }
  }

  /** Clipping a tiling of [lo, hi) at an inner point tiles [lo, size), and the clipped table reads
      the first size - lo bytes of what the whole table reads. */
  lemma {:induction false} TruncatedTiles(spans: seq<SegmentSpan>, lo: int, hi: int, size: int)
    requires Tiles(spans, lo, hi) && lo <= size <= hi
    ensures Tiles(Truncated(spans, size), lo, size)
  {
    if spans != [] && lo < size {
      if spans[0].end <= size {
        TilesSplit(spans, lo, hi, 1);
        TruncatedTiles(spans[1..], spans[0].end, hi, size);
      } else {
        assert Truncated(spans[1..], size) == [] by {
          TilesSplit(spans, lo, hi, 1);
        }
      }
    }
  }

  /** Every span reads the full number of bytes it claims. */
  ghost predicate Readable(store: ArticleStore, spans: seq<SegmentSpan>) {
    forall s | s in spans :: |ReadSpan(store, s)| == s.end - s.start
  }

  lemma {:induction false} ReadAllLength(store: ArticleStore, spans: seq<SegmentSpan>, lo: int, hi: int)
    requires Tiles(spans, lo, hi) && Readable(store, spans)
    ensures |ReadAll(store, spans)| == hi - lo
  {
    if spans != [] {
      ReadAllLength(store, spans[1..], spans[0].end, hi);
    }
  }

  /** What truncation leaves is a prefix of the bytes, cut at exactly the requested size. */
  lemma {:induction false} TruncatedReads(store: ArticleStore, spans: seq<SegmentSpan>, lo: int, hi: int, size: int)
    requires Tiles(spans, lo, hi) && lo <= size <= hi && Readable(store, spans)
    ensures |ReadAll(store, spans)| == hi - lo
    ensures ReadAll(store, Truncated(spans, size)) == ReadAll(store, spans)[..size - lo]
  {
    ReadAllLength(store, spans, lo, hi);
    if spans != [] && lo < size {
      var first, rest := ReadSpan(store, spans[0]), ReadAll(store, spans[1..]);
      assert ReadAll(store, spans) == first + rest;
      assert spans[0] in spans && |first| == spans[0].end - lo;
      TilesSplit(spans, lo, hi, 1);
      if spans[0].end <= size {
        TruncatedReads(store, spans[1..], spans[0].end, hi, size);
        SliceAcross(first, rest, 0, size - lo);
      } else {
        assert Truncated(spans[1..], size) == [];
        ClippedReads(store, spans[0], size);
        SliceWithin(first, rest, 0, size - lo);
      }
    }
  }

  lemma ClippedReads(store: ArticleStore, span: SegmentSpan, size: int)
    requires span.start <= size <= span.end && |ReadSpan(store, span)| == span.end - span.start
    ensures ReadSpan(store, span.(end := size)) == ReadSpan(store, span)[0..size - span.start]
  {
    if span.start < span.end {
      SliceOfSlice(store[span.messageId], span.segmentByteStart, span.segmentByteStart + (span.end - span.start),
                   0, size - span.start);
    }
  }

  // ----- computeSpans ----------------------------------------------------------------------

  /** The decoded segments of one posted file. A `last` size of 0 or less means "same as the rest". */
  function SegmentSize(n: nat, decoded: int, last: int, i: int): int {
    if i == n - 1 && last > 0 then last else decoded
  }

  /** Where segment `i` begins in the decoded file: i * decoded. */
  function SegmentStart(decoded: int, i: nat): int {
    if i == 0 then 0 else SegmentStart(decoded, i - 1) + decoded
  }

  lemma {:induction false} SegmentStartIsProduct(decoded: int, i: nat)
    ensures SegmentStart(decoded, i) == i * decoded
  {
    if i > 0 {
      SegmentStartIsProduct(decoded, i - 1);
      assert i * decoded == (i - 1) * decoded + decoded;
    }
  }

  lemma {:induction false} SegmentStartMonotone(decoded: int, i: nat, j: nat)
    requires i <= j && decoded >= 0
    ensures 0 <= SegmentStart(decoded, i) <= SegmentStart(decoded, j)
    ensures i < j ==> SegmentStart(decoded, i) + decoded <= SegmentStart(decoded, j)
  {
    if i < j {
      SegmentStartMonotone(decoded, i, j - 1);
    } else if i > 0 {
      SegmentStartMonotone(decoded, i - 1, j - 1);
    }
  }

  function DecodedTotal(n: nat, decoded: int, last: int): int
    requires n > 0
  {
    SegmentStart(decoded, n - 1) + SegmentSize(n, decoded, last, n - 1)
  }

  /** Segment `i`'s share of the bytes [offset, offset + size) of the posted file. */
  function SpanOf(ids: seq<string>, decoded: int, last: int, offset: int, size: int, i: nat): SegmentSpan
    requires i < |ids|
  {
    var segStart := SegmentStart(decoded, i);
    var segEnd := segStart + SegmentSize(|ids|, decoded, last, i);
    var dataStart, dataEnd := Max(offset, segStart), Min(offset + size, segEnd);
    SegmentSpan(i, ids[i], dataStart - offset, dataEnd - offset, segStart, dataStart - segStart, dataEnd < segEnd)
  }

  /** The shares of segments i, i+1, ... up to the first that begins at or past the end of the entry. */
  function SpansFrom(ids: seq<string>, decoded: int, last: int, offset: int, size: int, i: nat): seq<SegmentSpan>
    decreases |ids| - i
  {
    if i >= |ids| || SegmentStart(decoded, i) >= offset + size then []
    else [SpanOf(ids, decoded, last, offset, size, i)] + SpansFrom(ids, decoded, last, offset, size, i + 1)
  }

  /** The span table of [offset, offset + size) in a posted file. */
  function Spans(ids: seq<string>, decoded: int, last: int, offset: int, size: int): seq<SegmentSpan>
    requires offset >= 0
  {
    if |ids| == 0 || decoded <= 0 then [] else SpansFrom(ids, decoded, last, offset, size, offset / decoded)
  }

  /** Where the entry's first byte is in the file, and how many bytes follow: bytes before the file's
      beginning do not count. */
  function From(offset: int): int { Max(offset, 0) }

  function Share(offset: int, size: int): int { size + Min(offset, 0) }

  /** The span table for any offset. */
  function SpansAt(ids: seq<string>, decoded: int, last: int, offset: int, size: int): seq<SegmentSpan> {
    Spans(ids, decoded, last, From(offset), Share(offset, size))
  }

  /** The program asks for a message ID before the first: the offset is a whole segment or more before the
      file, and the entry reaches past the segment boundary behind it. */
  predicate Overruns(n: nat, decoded: int, offset: int, size: int) {
    n > 0 && decoded > 0 && offset <= -decoded && -(-offset / decoded) * decoded < offset + size
  }

  /** Go's division, which rounds toward zero. */
  function Quotient(a: int, b: int): int
    requires b > 0
  {
    if a >= 0 then a / b else -(-a / b)
  }

  method ComputeSpans(messageIds: seq<string>, decodedSegmentSize: int, lastDecodedSize: int,
                      segmentByteOffset: int, entrySize: int)
    returns (spans: seq<SegmentSpan>)
    requires !Overruns(|messageIds|, decodedSegmentSize, segmentByteOffset, entrySize)
    ensures spans == SpansAt(messageIds, decodedSegmentSize, lastDecodedSize, segmentByteOffset, entrySize)
  {
    spans := [];
    if |messageIds| == 0 || decodedSegmentSize <= 0 {
      return;
    }
    var entryEnd := segmentByteOffset + entrySize;
    var firstSegIdx := Quotient(segmentByteOffset, decodedSegmentSize);
    QuotientFacts(segmentByteOffset, decodedSegmentSize);
    if firstSegIdx < 0 {
      // The loop stops at its first segment.
      assert SegmentStart(decodedSegmentSize, 0) >= entryEnd;
      return;
    }
    spans := SegmentLoop(messageIds, decodedSegmentSize, lastDecodedSize, segmentByteOffset, entryEnd, firstSegIdx);
  }

  lemma QuotientFacts(offset: int, decoded: int)
    requires decoded > 0
    ensures offset >= 0 ==> Quotient(offset, decoded) == offset / decoded
    ensures offset < 0 ==> Quotient(offset, decoded) <= 0 && Quotient(offset, decoded) == -(-offset / decoded)
    ensures Quotient(offset, decoded) < 0 <==> offset <= -decoded
    ensures Quotient(offset, decoded) < 0 ==> Quotient(offset, decoded) * decoded < 0
  {
    if offset < 0 {
      var q := -offset / decoded;
      FirstSegment(-offset, decoded);
      SegmentStartIsProduct(decoded, q);
      if q > 0 {
        SegmentStartMonotone(decoded, 1, q);
        SegmentStartIsProduct(decoded, 1);
        assert Quotient(offset, decoded) * decoded == -(q * decoded);
      }
    }
  }

  /** The loop over the segments. */
  method SegmentLoop(messageIds: seq<string>, decodedSegmentSize: int, lastDecodedSize: int,
                     segmentByteOffset: int, entryEnd: int, firstSegIdx: nat)
    returns (spans: seq<SegmentSpan>)
    requires decodedSegmentSize > 0 && firstSegIdx == From(segmentByteOffset) / decodedSegmentSize
    ensures spans == SpansFrom(messageIds, decodedSegmentSize, lastDecodedSize, From(segmentByteOffset),
                               entryEnd - From(segmentByteOffset), firstSegIdx)
  {
    hide SpansFrom, SegmentStart;
    spans := [];
    ghost var from := From(segmentByteOffset);
    ghost var share := entryEnd - from;
    var vfPos := 0;
    var i := firstSegIdx;
    FirstSegment(from, decodedSegmentSize);
    ghost var whole := SpansFrom(messageIds, decodedSegmentSize, lastDecodedSize, from, share, i);
    SegmentStep(decodedSegmentSize, i);
    while i < |messageIds|
      invariant i >= firstSegIdx
      invariant i == firstSegIdx ==>
          SegmentStart(decodedSegmentSize, i) <= from < SegmentStart(decodedSegmentSize, i + 1)
      invariant spans + SpansFrom(messageIds, decodedSegmentSize, lastDecodedSize, from, share, i) == whole
      invariant i == firstSegIdx ==> vfPos == 0
      invariant firstSegIdx < i < |messageIds| && SegmentStart(decodedSegmentSize, i) < entryEnd ==>
                  vfPos == SegmentStart(decodedSegmentSize, i) - from && from < SegmentStart(decodedSegmentSize, i)
    {
      var segStart := SegmentBegin(i, decodedSegmentSize);
      SegmentStep(decodedSegmentSize, i);
      SpansFromStep(messageIds, decodedSegmentSize, lastDecodedSize, from, share, i);
      var segSize := decodedSegmentSize;
      if i == |messageIds| - 1 && lastDecodedSize > 0 {
        segSize := lastDecodedSize;
      }
      var segEnd := segStart + segSize;
      if segStart >= entryEnd {
        break;
      }
      var dataStart := segmentByteOffset;
      if segStart > dataStart {
        dataStart := segStart;
      }
      var dataEnd := entryEnd;
      if segEnd < dataEnd {
        dataEnd := segEnd;
      }
      var byteInSeg := dataStart - segStart;
      var chunkLen := dataEnd - dataStart;
      var span := SegmentSpan(i, messageIds[i], vfPos, vfPos + chunkLen, segStart, byteInSeg, dataEnd < segEnd);
      assert span == SpanOf(messageIds, decodedSegmentSize, lastDecodedSize, from, share, i);
      spans := spans + [span];
      vfPos := vfPos + chunkLen;
      i := i + 1;
    }
    SpansFromStep(messageIds, decodedSegmentSize, lastDecodedSize, from, share, i);
  }

  method SegmentBegin(i: nat, decodedSegmentSize: int) returns (segStart: int)
    ensures segStart == SegmentStart(decodedSegmentSize, i)
  {
    SegmentStartIsProduct(decodedSegmentSize, i);
    segStart := i * decodedSegmentSize;
  }

  lemma SpansFromStep(ids: seq<string>, decoded: int, last: int, offset: int, size: int, i: nat)
    ensures SpansFrom(ids, decoded, last, offset, size, i)
         == if i >= |ids| || SegmentStart(decoded, i) >= offset + size then []
            else [SpanOf(ids, decoded, last, offset, size, i)] + SpansFrom(ids, decoded, last, offset, size, i + 1)
  {
  }

  /** The first segment is the one that holds byte `offset`. */
  lemma FirstSegment(offset: int, decoded: int)
    requires offset >= 0 && decoded > 0
    ensures 0 <= SegmentStart(decoded, offset / decoded) <= offset < SegmentStart(decoded, offset / decoded) + decoded
  {
    SegmentStartIsProduct(decoded, offset / decoded);
  }

  /** A caller's test for the arguments on which the span table is a tiling: either no segment is
      visited at all, or the entry is non-empty and starts inside the decoded bytes. */
  predicate LaysOut(n: nat, decoded: int, last: int, offset: int, size: int)
    requires offset >= 0
  {
    || n == 0 || decoded <= 0 || offset / decoded >= n
    || SegmentStart(decoded, offset / decoded) >= offset + size
    || (size > 0 && offset < DecodedTotal(n, decoded, last))
  }

  /** The arguments on which the entry is non-empty and begins inside a segment of the file. */
  predicate StartsInside(n: nat, decoded: int, last: int, offset: int, size: int) {
    && n > 0 && decoded > 0 && size > 0 && offset >= 0
    && offset / decoded < n
    && offset < DecodedTotal(n, decoded, last)
  }

  /** With 0 < last <= decoded (or last <= 0), starting before the decoded total is enough. */
  lemma StartsInsideTotal(n: nat, decoded: int, last: int, offset: int, size: int)
    requires n > 0 && decoded > 0 && last <= decoded && size > 0
    requires 0 <= offset < DecodedTotal(n, decoded, last)
    ensures StartsInside(n, decoded, last, offset, size)
  {
    FirstSegment(offset, decoded);
    if offset / decoded >= n {
      SegmentStartMonotone(decoded, n - 1, offset / decoded);
    }
  }

  /** Segment `i` ends at or before the decoded total, and is followed directly by segment i + 1. */
  lemma SegmentEnds(n: nat, decoded: int, last: int, i: nat)
    requires i < n && decoded > 0
    ensures var end := SegmentStart(decoded, i) + SegmentSize(n, decoded, last, i);
      && 0 <= SegmentStart(decoded, i) < end <= DecodedTotal(n, decoded, last)
      && (i + 1 < n ==> end == SegmentStart(decoded, i + 1) < DecodedTotal(n, decoded, last))
      && (i + 1 == n ==> end == DecodedTotal(n, decoded, last))
  {
    SegmentStartMonotone(decoded, i, n - 1);
  }

  lemma {:induction false} SpansFromTile(ids: seq<string>, decoded: int, last: int, offset: int, size: int, i: nat)
    requires decoded > 0 && i < |ids|
    requires Max(offset, SegmentStart(decoded, i))
           < Min(offset + size, SegmentStart(decoded, i) + SegmentSize(|ids|, decoded, last, i))
    ensures Tiles(SpansFrom(ids, decoded, last, offset, size, i), Max(offset, SegmentStart(decoded, i)) - offset,
                  Min(size, DecodedTotal(|ids|, decoded, last) - offset))
    decreases |ids| - i
  {
    SegmentEnds(|ids|, decoded, last, i);
    var rest := SpansFrom(ids, decoded, last, offset, size, i + 1);
    if i + 1 < |ids| && SegmentStart(decoded, i + 1) < offset + size {
      SegmentEnds(|ids|, decoded, last, i + 1);
      SpansFromTile(ids, decoded, last, offset, size, i + 1);
    } else {
      assert rest == [];
    }
  }

  /** A non-empty entry that begins inside the file gets spans that tile exactly the bytes the file
      can supply. */
  lemma SpansTile(ids: seq<string>, decoded: int, last: int, offset: int, size: int)
    requires StartsInside(|ids|, decoded, last, offset, size)
    ensures var spans := Spans(ids, decoded, last, offset, size);
      spans != [] && Tiles(spans, 0, Min(size, DecodedTotal(|ids|, decoded, last) - offset))
  {
    FirstSegment(offset, decoded);
    var first := offset / decoded;
    SegmentEnds(|ids|, decoded, last, first);
    SpansFromTile(ids, decoded, last, offset, size, first);
  }

  /** On any other argument the first span is empty or of negative length. */
  lemma SpansMisplaced(ids: seq<string>, decoded: int, last: int, offset: int, size: int)
    requires offset >= 0 && !LaysOut(|ids|, decoded, last, offset, size)
    ensures var spans := Spans(ids, decoded, last, offset, size);
      spans != [] && spans[0].end <= spans[0].start
  {
    var first := offset / decoded;
    FirstSegment(offset, decoded);
    SegmentEnds(|ids|, decoded, last, first);
    assert Spans(ids, decoded, last, offset, size)[0] == SpanOf(ids, decoded, last, offset, size, first);
  }

  /** Arguments that lay out without starting inside the file produce no spans at all. */
  lemma SpansNothing(ids: seq<string>, decoded: int, last: int, offset: int, size: int)
    requires offset >= 0 && LaysOut(|ids|, decoded, last, offset, size)
    requires !StartsInside(|ids|, decoded, last, offset, size)
    ensures Spans(ids, decoded, last, offset, size) == []
  {
  }

  /** The span table tiles some interval from 0 exactly when `LaysOut` holds of the arguments. */
  lemma SpansTileExactly(ids: seq<string>, decoded: int, last: int, offset: int, size: int)
    requires offset >= 0
    ensures LaysOut(|ids|, decoded, last, offset, size)
            <==> Gapless(Spans(ids, decoded, last, offset, size))
  {
    var spans := Spans(ids, decoded, last, offset, size);
    if spans == [] {
      assert Tiles(spans, 0, FileSize(spans));
    } else {
      var first := offset / decoded;
      FirstSegment(offset, decoded);
      SegmentEnds(|ids|, decoded, last, first);
      if size > 0 && offset < DecodedTotal(|ids|, decoded, last) {
        SpansTile(ids, decoded, last, offset, size);
        TilesFileSize(spans, Min(size, DecodedTotal(|ids|, decoded, last) - offset));
      } else {
        SpansMisplaced(ids, decoded, last, offset, size);
      }
    }
  }

  /** An argument that starts past the short last segment yields a span of negative length. */
  lemma SpansNegativeLength()
    ensures Spans(["a", "b"], 10, 4, 16, 5)
         == [SegmentSpan(1, "b", 0, -2, 10, 6, false)]
    ensures !LaysOut(2, 10, 4, 16, 5)
  {
    var ids := ["a", "b"];
    assert SpansFrom(ids, 10, 4, 16, 5, 1) == [SpanOf(ids, 10, 4, 16, 5, 1)] + SpansFrom(ids, 10, 4, 16, 5, 2);
  }

  /** Span `k` is the share of the k-th segment counted from the first. */
  lemma {:induction false} SpansFromAt(ids: seq<string>, decoded: int, last: int, offset: int, size: int, i: nat,
                                       k: nat)
    requires k < |SpansFrom(ids, decoded, last, offset, size, i)|
    ensures i + k < |ids| && SegmentStart(decoded, i + k) < offset + size
    ensures SpansFrom(ids, decoded, last, offset, size, i)[k] == SpanOf(ids, decoded, last, offset, size, i + k)
    ensures k + 1 == |SpansFrom(ids, decoded, last, offset, size, i)|
            <==> i + k + 1 >= |ids| || SegmentStart(decoded, i + k + 1) >= offset + size
    decreases k
  {
    if k > 0 {
      SpansFromAt(ids, decoded, last, offset, size, i + 1, k - 1);
    }
  }

  /** `entryTruncated` marks the final span and no other, and only when the entry ends before that
      segment does. */
  lemma SpansTruncatedFlag(ids: seq<string>, decoded: int, last: int, offset: int, size: int, k: nat)
    requires StartsInside(|ids|, decoded, last, offset, size)
    requires k < |Spans(ids, decoded, last, offset, size)|
    ensures var span := Spans(ids, decoded, last, offset, size)[k];
      && 0 <= span.segmentId < |ids|
      && var segmentEnd := SegmentStart(decoded, span.segmentId) + SegmentSize(|ids|, decoded, last, span.segmentId);
         && (span.entryTruncated <==> k + 1 == |Spans(ids, decoded, last, offset, size)| && offset + size < segmentEnd)
         && (span.entryTruncated ==> span.end == size)
  {
    hide SpansFrom, SegmentStart, DecodedTotal;
    var first := offset / decoded;
    SpansFromAt(ids, decoded, last, offset, size, first, k);
    SegmentEnds(|ids|, decoded, last, first + k);
    FirstSegment(offset, decoded);
  }

  /** `span` supplies byte `p` of the entry from the segment that holds byte offset + p of the file,
      at the right place inside that segment. */
  ghost predicate Supplies(span: SegmentSpan, ids: seq<string>, decoded: int, last: int, offset: int, p: int) {
    var inSegment := span.segmentByteStart + (p - span.start);
    && 0 <= span.segmentId < |ids| && span.messageId == ids[span.segmentId]
    && span.decodedStart == SegmentStart(decoded, span.segmentId)
    && 0 <= inSegment < SegmentSize(|ids|, decoded, last, span.segmentId)
    && span.decodedStart + inSegment == offset + p
  }

  lemma SpanOfSupplies(ids: seq<string>, decoded: int, last: int, offset: int, size: int, i: nat, p: int)
    requires i < |ids|
    requires var span := SpanOf(ids, decoded, last, offset, size, i); span.start <= p < span.end
    ensures Supplies(SpanOf(ids, decoded, last, offset, size, i), ids, decoded, last, offset, p)
  {
  }

  /** Every span supplies the right byte for every position it covers. */
  lemma SpansSupply(ids: seq<string>, decoded: int, last: int, offset: int, size: int, k: nat, p: int)
    requires offset >= 0 && k < |Spans(ids, decoded, last, offset, size)|
    requires var span := Spans(ids, decoded, last, offset, size)[k]; span.start <= p < span.end
    ensures Supplies(Spans(ids, decoded, last, offset, size)[k], ids, decoded, last, offset, p)
  {
    var first := offset / decoded;
    SpansFromAt(ids, decoded, last, offset, size, first, k);
    SpanOfSupplies(ids, decoded, last, offset, size, first + k, p);
  }

  /** Every article of the file is present with the size the layout assumes. */
  ghost predicate Holds(store: ArticleStore, ids: seq<string>, decoded: int, last: int) {
    forall i | 0 <= i < |ids| :: ids[i] in store && |store[ids[i]]| == SegmentSize(|ids|, decoded, last, i)
  }

  /** The decoded file from segment `i` on: its articles one after another. */
  ghost function FileBytes(store: ArticleStore, ids: seq<string>, i: nat): seq<byte>
    requires forall j | 0 <= j < |ids| :: ids[j] in store
    decreases |ids| - i
  {
    if i >= |ids| then [] else store[ids[i]] + FileBytes(store, ids, i + 1)
  }

  lemma {:induction false} FileBytesLength(store: ArticleStore, ids: seq<string>, decoded: int, last: int, i: nat)
    requires decoded > 0 && Holds(store, ids, decoded, last) && i < |ids|
    ensures |FileBytes(store, ids, i)| == DecodedTotal(|ids|, decoded, last) - SegmentStart(decoded, i)
    decreases |ids| - i
  {
    SegmentEnds(|ids|, decoded, last, i);
    if i + 1 < |ids| {
      FileBytesLength(store, ids, decoded, last, i + 1);
    }
  }

  /** Reading from segment `i` on: `from` and `to` are the entry's bounds counted from that segment. */
  lemma {:induction false} SpansFromRead(store: ArticleStore, ids: seq<string>, decoded: int, last: int,
                                         offset: int, size: int, i: nat, from: int, to: int)
    requires decoded > 0 && i < |ids| && Holds(store, ids, decoded, last)
    requires from == Max(offset - SegmentStart(decoded, i), 0) < SegmentSize(|ids|, decoded, last, i)
    requires to == Min(offset + size, DecodedTotal(|ids|, decoded, last)) - SegmentStart(decoded, i) > from
    ensures to <= |FileBytes(store, ids, i)|
    ensures ReadAll(store, SpansFrom(ids, decoded, last, offset, size, i)) == FileBytes(store, ids, i)[from..to]
    decreases |ids| - i
  {
    SegmentEnds(|ids|, decoded, last, i);
    FileBytesLength(store, ids, decoded, last, i);
    var segment, rest := store[ids[i]], FileBytes(store, ids, i + 1);
    assert FileBytes(store, ids, i) == segment + rest;
    SpanOfReads(store, ids, decoded, last, offset, size, i, from, to);
    if to > |segment| {
      SpansFromRead(store, ids, decoded, last, offset, size, i + 1, 0, to - |segment|);
      SliceAcross(segment, rest, from, to);
    } else {
      assert SpansFrom(ids, decoded, last, offset, size, i + 1) == [];
      SliceWithin(segment, rest, from, to);
    }
  }

  lemma SpanOfReads(store: ArticleStore, ids: seq<string>, decoded: int, last: int,
                    offset: int, size: int, i: nat, from: int, to: int)
    requires decoded > 0 && i < |ids| && Holds(store, ids, decoded, last)
    requires from == Max(offset - SegmentStart(decoded, i), 0) < SegmentSize(|ids|, decoded, last, i)
    requires to == Min(offset + size, DecodedTotal(|ids|, decoded, last)) - SegmentStart(decoded, i) > from
    ensures ids[i] in store && |store[ids[i]]| == SegmentSize(|ids|, decoded, last, i)
    ensures ReadSpan(store, SpanOf(ids, decoded, last, offset, size, i))
         == store[ids[i]][from..Min(to, |store[ids[i]]|)]
  {
    SegmentEnds(|ids|, decoded, last, i);
  }

  lemma HoldsNames(store: ArticleStore, ids: seq<string>, decoded: int, last: int)
    requires Holds(store, ids, decoded, last)
    ensures forall i | 0 <= i < |ids| :: ids[i] in store
  {
  }

  /** Reading the whole table yields exactly the entry's slice of the decoded file. */
  lemma SpansRead(store: ArticleStore, ids: seq<string>, decoded: int, last: int, offset: int, size: int)
    requires StartsInside(|ids|, decoded, last, offset, size) && Holds(store, ids, decoded, last)
    ensures |FileBytes(store, ids, 0)| == DecodedTotal(|ids|, decoded, last)
    ensures ReadAll(store, Spans(ids, decoded, last, offset, size))
         == FileBytes(store, ids, 0)[offset..Min(offset + size, DecodedTotal(|ids|, decoded, last))]
  {
    hide SpansFrom, FileBytes, SegmentStart, ReadAll, Holds;
    var first, total := offset / decoded, DecodedTotal(|ids|, decoded, last);
    var segStart := SegmentStart(decoded, first);
    HoldsNames(store, ids, decoded, last);
    SegmentStep(decoded, 0);
    FirstSegment(offset, decoded);
    SegmentEnds(|ids|, decoded, last, first);
    FileBytesLength(store, ids, decoded, last, 0);
    FileBytesSuffix(store, ids, decoded, last, first);
    SpansFromRead(store, ids, decoded, last, offset, size, first, offset - segStart,
                  Min(offset + size, total) - segStart);
    SliceOfSuffix(FileBytes(store, ids, 0), segStart, offset, Min(offset + size, total));
  }

  lemma SegmentStep(decoded: int, i: nat)
    ensures SegmentStart(decoded, 0) == 0 && SegmentStart(decoded, i + 1) == SegmentStart(decoded, i) + decoded
  {
  }

  lemma FileBytesStep(store: ArticleStore, ids: seq<string>, i: nat)
    requires i < |ids| && forall j | 0 <= j < |ids| :: ids[j] in store
    ensures FileBytes(store, ids, i) == store[ids[i]] + FileBytes(store, ids, i + 1)
  {
  }

  lemma {:induction false} FileBytesSuffix(store: ArticleStore, ids: seq<string>, decoded: int, last: int, i: nat)
    requires decoded > 0 && i < |ids| && Holds(store, ids, decoded, last)
    ensures 0 <= SegmentStart(decoded, i) <= |FileBytes(store, ids, 0)|
    ensures FileBytes(store, ids, 0)[SegmentStart(decoded, i)..] == FileBytes(store, ids, i)
  {
    hide DecodedTotal, FileBytes, SegmentStart;
    FileBytesLength(store, ids, decoded, last, 0);
    SegmentEnds(|ids|, decoded, last, i);
    SegmentStep(decoded, i);
    if i > 0 {
      FileBytesSuffix(store, ids, decoded, last, i - 1);
      SegmentEnds(|ids|, decoded, last, i - 1);
      FileBytesStep(store, ids, i - 1);
      SuffixStep(FileBytes(store, ids, 0), SegmentStart(decoded, i - 1), store[ids[i - 1]], FileBytes(store, ids, i));
    }
  }

  lemma SuffixStep<T>(whole: seq<T>, at: nat, head: seq<T>, tail: seq<T>)
    requires at + |head| <= |whole| && whole[at..] == head + tail
    ensures whole[at + |head|..] == tail
  {
    assert whole[at + |head|..] == whole[at..][|head|..];
  }
}
