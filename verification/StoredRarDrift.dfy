/** Where the bytes of a whole read come from when spans are wrong about where their articles begin: each
    stands as far off the place the table means as its span was wrong when it was fetched. */
module StoredRarDrift {
  import opened Bytes
  import opened SpanLayout
  import opened StoredRarReader
  import opened StoredRarHealing

  /** The span where the read found it: earlier corrections move a span, and nothing else, before the read gets
      to it. */
  function AsFound(before: SegmentSpan, after: SegmentSpan): SegmentSpan {
    Moved(before, after.start - before.start)
  }

  /** How far off position `p` of the span was read: not at all once the span has been corrected, which is
      before its first byte if the first fetch fell short, and behind its old end if it grew. */
  function ShiftAt(articles: Articles, before: SegmentSpan, after: SegmentSpan, current: int, stop: int, p: int): int
    requires before.messageId in articles
  {
    var found := AsFound(before, after);
    if p >= found.end || TurnAt(articles, found, Max(current, found.start), Min(stop, found.end)).Correcting? then 0
    else Drift(articles[before.messageId], before)
  }

  /** Byte `b` at position `p` of a read of [current, stop) is the one that stands `ShiftAt` places behind the
      place where the span means it. */
  predicate FoundBy(articles: Articles, before: SegmentSpan, after: SegmentSpan, current: int, stop: int, p: int,
                    b: byte) {
    && after.start <= p < after.end && before.messageId in articles
    && var bytes := articles[before.messageId].bytes;
       var place := before.segmentByteStart + (p - after.start) + ShiftAt(articles, before, after, current, stop, p);
       0 <= place < |bytes| && bytes[place] == b
  }

  ghost predicate Found(articles: Articles, before: seq<SegmentSpan>, after: seq<SegmentSpan>, current: int, stop: int,
                        p: int, b: byte)
    requires |before| == |after|
  {
    exists k: nat | k < |before| :: FoundBy(articles, before[k], after[k], current, stop, p, b)
  }

  ghost predicate AllFound(articles: Articles, before: seq<SegmentSpan>, after: seq<SegmentSpan>, current: int,
                           stop: int, from: int, bytes: seq<byte>)
    requires |before| == |after|
  {
    forall i | 0 <= i < |bytes| :: Found(articles, before, after, current, stop, from + i, bytes[i])
  }

  // ----- Spans stay in line -----------------------------------------------------------------------------------

  /** Each span begins where the one before it ends, and none is longer backwards. */
  ghost predicate Chained(spans: seq<SegmentSpan>) {
    forall i | 0 <= i < |spans| ::
      spans[i].start <= spans[i].end && (i + 1 < |spans| ==> spans[i + 1].start == spans[i].end)
  }

  lemma TilesChained(spans: seq<SegmentSpan>, lo: int, hi: int)
    requires Tiles(spans, lo, hi)
    ensures Chained(spans)
  {
    forall i | 0 <= i < |spans|
      ensures spans[i].start <= spans[i].end && (i + 1 < |spans| ==> spans[i + 1].start == spans[i].end)
    {
      TilesAt(spans, lo, hi, i);
      TilesSplit(spans, lo, hi, i + 1);
    }
  }

  lemma RealignedChained(spans: seq<SegmentSpan>, k: nat, a: Article)
    requires Chained(spans) && k < |spans|
    ensures Chained(Realigned(spans, k, a))
  {
    hide Realigned, MeasuredSize, MeasuredStart;
    RealignedAt(spans, k, a);
  }

  lemma {:induction false} ChainedOrder(spans: seq<SegmentSpan>, j: nat, k: nat)
    requires Chained(spans) && j < k < |spans|
    ensures spans[j].end <= spans[k].start
  {
    if j + 1 < k {
      ChainedOrder(spans, j, k - 1);
    }
  }

  lemma {:induction false} ReadChained(articles: Articles, st: State, current: int, left: int)
    requires Checked(st) && 0 <= current && Chained(st.spans)
    ensures Chained(ReadFrom(articles, st, current, left).state.spans)
    decreases LooseCount(articles, st.spans), left
  {
    hide LooseCount, TurnAt, Covering, Accepted, Tiles, Loose, Chained, Published;
    if left <= 0 || !st.valid || current >= st.size {
      ReadFromEnds(articles, st, current, left);
    } else {
      ReadFromStep(articles, st, current, left);
      var k := Covering(st.spans, current);
      var span, to := st.spans[k], RequestEnd(st, k, current, left);
      var turn := TurnAt(articles, span, current, to);
      TurnFacts(articles, span, current, to);
      if Changes(turn) {
        LooseStep(articles, st, k);
        PublishedIs(st.spans, k, articles[span.messageId]);
        RealignedChained(st.spans, k, articles[span.messageId]);
        var taken := if turn.Growing? then turn.block else [];
        ReadChained(articles, Published(st.spans, k, articles[span.messageId]), current + |taken|, left - |taken|);
      } else if turn.Passing? {
        ReadChained(articles, st, to, left - |turn.block|);
      }
    }
  }

  // ----- One turn and the rest ---------------------------------------------------------------------------------

  /** The bytes of a turn, seen from the table the read leaves behind. */
  lemma BlockFound(articles: Articles, before: SegmentSpan, after: SegmentSpan, current: int, stop: int, to: int)
    requires before.start == after.start <= current < to == Min(before.end, stop) <= after.end
    requires TurnAt(articles, before, current, to).Passing? || TurnAt(articles, before, current, to).Growing?
    ensures var block := TurnAt(articles, before, current, to).block;
      |block| == to - current &&
      forall i | 0 <= i < |block| :: FoundBy(articles, before, after, current, stop, current + i, block[i])
  {
    assert AsFound(before, after) == before;
  }

  /** A byte found behind an untroubled turn is found by the whole read. */
  lemma LaterFound(articles: Articles, before: SegmentSpan, after: SegmentSpan, current: int, next: int, stop: int,
                   p: int, b: byte)
    requires FoundBy(articles, before, after, next, stop, p, b) && current <= next <= after.start
    ensures FoundBy(articles, before, after, current, stop, p, b)
  {
  }

  /** A later span, which a correction has moved, is found where it would have been found. */
  lemma MovedFound(articles: Articles, before: SegmentSpan, delta: int, after: SegmentSpan, current: int, stop: int,
                   p: int, b: byte)
    requires FoundBy(articles, Moved(before, delta), after, current, stop, p, b)
    ensures FoundBy(articles, before, after, current, stop, p, b)
  {
    assert AsFound(Moved(before, delta), after) == AsFound(before, after);
  }

  /** A byte of the corrected span itself: it is read without a shift, and so it counts for the span as it was. */
  lemma CorrectedFound(articles: Articles, before: SegmentSpan, current: int, next: int, stop: int, p: int, b: byte)
    requires before.messageId in articles
    requires var after := Corrected(articles[before.messageId], before);
      FoundBy(articles, after, after, next, stop, p, b)
    requires p >= before.end || TurnAt(articles, before, Max(current, before.start), Min(stop, before.end)).Correcting?
    ensures FoundBy(articles, before, Corrected(articles[before.messageId], before), current, stop, p, b)
  {
    var a := articles[before.messageId];
    var after := Corrected(a, before);
    assert AsFound(before, after) == before;
    assert Drift(a, after) == 0;
    assert ShiftAt(articles, after, after, next, stop, p) == 0;
  }

  /** What the rest of a read finds after span `k` was corrected, the whole read finds. */
  lemma FoundThroughChange(articles: Articles, spans: seq<SegmentSpan>, k: nat, after: seq<SegmentSpan>,
                           current: int, next: int, stop: int, p: int, b: byte)
    requires k < |spans| == |after| && spans[k].messageId in articles && Chained(after)
    requires |Realigned(spans, k, articles[spans[k].messageId])| == |after|
    requires after[k] == Corrected(articles[spans[k].messageId], spans[k])
    requires forall j | 0 <= j < k :: after[j] == spans[j] && spans[j].end <= current
    requires current <= next <= p && spans[k].start <= current
    requires Found(articles, Realigned(spans, k, articles[spans[k].messageId]), after, next, stop, p, b)
    requires (next == current && TurnAt(articles, spans[k], current, Min(stop, spans[k].end)).Correcting?)
             || spans[k].end <= next <= after[k].end
    ensures Found(articles, spans, after, current, stop, p, b)
  {
    hide TurnAt, Realigned, Chained, Corrected, FoundBy;
    var a := articles[spans[k].messageId];
    var realigned := Realigned(spans, k, a);
    RealignedAt(spans, k, a);
    var j: nat :| j < |spans| && FoundBy(articles, realigned[j], after[j], next, stop, p, b);
    FoundInside(articles, realigned[j], after[j], next, stop, p, b);
    if j == k {
      CorrectedFound(articles, spans[k], current, next, stop, p, b);
    } else if j > k {
      ChainedOrder(after, k, j);
      MovedFound(articles, spans[j], Growth(a, spans[k]), after[j], next, stop, p, b);
      if next != current {
        LaterFound(articles, spans[j], after[j], current, next, stop, p, b);
      }
    }
    assert FoundBy(articles, spans[j], after[j], current, stop, p, b);
  }

  lemma FoundInside(articles: Articles, before: SegmentSpan, after: SegmentSpan, current: int, stop: int, p: int,
                    b: byte)
    requires FoundBy(articles, before, after, current, stop, p, b)
    ensures after.start <= p < after.end
  {
  }

  /** What the rest of a read finds behind span `k`, the whole read finds. */
  lemma FoundBehind(articles: Articles, spans: seq<SegmentSpan>, k: nat, after: seq<SegmentSpan>,
                    current: int, next: int, stop: int, p: int, b: byte)
    requires k < |spans| == |after| && Chained(after) && current <= next <= p
    requires forall j | 0 <= j <= k :: after[j] == spans[j] && spans[j].end <= next
    requires spans[k].end == next
    requires Found(articles, spans, after, next, stop, p, b)
    ensures Found(articles, spans, after, current, stop, p, b)
  {
    hide Chained, FoundBy;
    var j: nat :| j < |spans| && FoundBy(articles, spans[j], after[j], next, stop, p, b);
    FoundInside(articles, spans[j], after[j], next, stop, p, b);
    ChainedOrder(after, k, j);
    LaterFound(articles, spans[j], after[j], current, next, stop, p, b);
    assert FoundBy(articles, spans[j], after[j], current, stop, p, b);
  }

  lemma FoundAfter(articles: Articles, before: seq<SegmentSpan>, after: seq<SegmentSpan>, current: int, stop: int,
                   from: int, a: seq<byte>, b: seq<byte>)
    requires |before| == |after|
    requires AllFound(articles, before, after, current, stop, from, a)
    requires AllFound(articles, before, after, current, stop, from + |a|, b)
    ensures AllFound(articles, before, after, current, stop, from, a + b)
  {
    hide Found;
    forall i | 0 <= i < |a + b| ensures Found(articles, before, after, current, stop, from + i, (a + b)[i]) {
      if i >= |a| {
        assert (a + b)[i] == b[i - |a|];
      }
    }
  }

  // ----- The whole read ----------------------------------------------------------------------------------------

  /** Where a turn that changes the table leaves the spans up to its own, whatever the rest of the read does. */
  lemma ChangeKept(articles: Articles, st: State, k: nat, next: int, left: int)
    requires Checked(st) && Tiles(st.spans, 0, st.size) && st.size > 0 && k < |st.spans| && 0 <= next
    requires Loose(articles, st.spans[k]) && forall j | 0 <= j < k :: st.spans[j].end <= next
    ensures var a := articles[st.spans[k].messageId]; var published := Published(st.spans, k, a);
      && Checked(published) && LooseCount(articles, published.spans) < LooseCount(articles, st.spans)
      && published.spans == Realigned(st.spans, k, a) && |published.spans| == |st.spans|
      && var after := ReadFrom(articles, published, next, left).state.spans;
         && |after| == |st.spans| && after[k] == Corrected(a, st.spans[k]) && Chained(after)
         && forall j | 0 <= j < k :: after[j] == st.spans[j]
  {
    hide LooseCount, Realigned, Covering, Tiles, Fits, Corrected, ReadFrom, Chained;
    var a := articles[st.spans[k].messageId];
    LooseStep(articles, st, k);
    PublishedIs(st.spans, k, a);
    CoveringRealigned(st.spans, k, a, next);
    CorrectedFits(a, st.spans[k]);
    CorrectedSame(a, st.spans[k]);
    SpansKept(articles, Published(st.spans, k, a), next, left);
    TilesChained(st.spans, 0, st.size);
    RealignedChained(st.spans, k, a);
    ReadChained(articles, Published(st.spans, k, a), next, left);
  }

  /** The bytes of the rest of a read, found by the whole read, when its first turn changes the table. */
  lemma ChangeFound(articles: Articles, st: State, k: nat, current: int, next: int, left: int, stop: int)
    requires Checked(st) && Tiles(st.spans, 0, st.size) && st.size > 0 && k < |st.spans| && 0 <= current <= next
    requires Loose(articles, st.spans[k]) && st.spans[k].start <= current
    requires forall j | 0 <= j < k :: st.spans[j].end <= current
    requires var a := articles[st.spans[k].messageId];
      (next == current && TurnAt(articles, st.spans[k], current, Min(stop, st.spans[k].end)).Correcting?)
      || st.spans[k].end <= next <= Corrected(a, st.spans[k]).end
    requires var published := Published(st.spans, k, articles[st.spans[k].messageId]);
      && Checked(published) && var out := ReadFrom(articles, published, next, left);
         && |out.state.spans| == |published.spans|
         && AllFound(articles, published.spans, out.state.spans, next, stop, next, out.written)
    ensures var out := ReadFrom(articles, Published(st.spans, k, articles[st.spans[k].messageId]), next, left);
      |out.state.spans| == |st.spans| && AllFound(articles, st.spans, out.state.spans, current, stop, next, out.written)
  {
    hide LooseCount, Realigned, Tiles, Fits, Corrected, ReadFrom, Chained, TurnAt, Found, Published;
    ChangeKept(articles, st, k, next, left);
    var out := ReadFrom(articles, Published(st.spans, k, articles[st.spans[k].messageId]), next, left);
    forall i | 0 <= i < |out.written|
      ensures Found(articles, st.spans, out.state.spans, current, stop, next + i, out.written[i])
    {
      FoundThroughChange(articles, st.spans, k, out.state.spans, current, next, stop, next + i, out.written[i]);
    }
  }

  /** Every byte that a read of [current, current + left) returns, whatever spans it corrects on the way, stands
      exactly as far off the place its span means as the span was wrong about its article's position when the
      byte was fetched. */
  lemma {:induction false} ReadFinds(articles: Articles, st: State, current: int, left: int)
    requires Checked(st) && 0 <= current
    ensures var out := ReadFrom(articles, st, current, left);
      |out.state.spans| == |st.spans|
      && AllFound(articles, st.spans, out.state.spans, current, current + left, current, out.written)
    decreases LooseCount(articles, st.spans), left
  {
    hide LooseCount, TurnAt, Realigned, Covering, Accepted, Tiles, Loose, AllFound, Published, Corrected;
    if left <= 0 || !st.valid || current >= st.size {
      ReadFromEnds(articles, st, current, left);
      NoBytesFound(articles, st.spans, current, current + left);
    } else {
      ReadFromStep(articles, st, current, left);
      var k := Covering(st.spans, current);
      var span, to := st.spans[k], RequestEnd(st, k, current, left);
      TurnFacts(articles, span, current, to);
      CoveringBefore(st.spans, current);
      TilesAt(st.spans, 0, st.size, k);
      match TurnAt(articles, span, current, to)
      case Correcting =>
        CorrectingFinds(articles, st, k, current, left);
      case Growing(block) =>
        GrowingFinds(articles, st, k, current, left);
      case Passing(block) =>
        PassingFinds(articles, st, k, current, left);
      case _ =>
        NoBytesFound(articles, st.spans, current, current + left);
    }
  }

  lemma NoBytesFound(articles: Articles, spans: seq<SegmentSpan>, current: int, stop: int)
    ensures AllFound(articles, spans, spans, current, stop, current, [])
  {
  }

  lemma RequestInside(st: State, k: nat, current: int, left: int)
    requires k < |st.spans| && st.spans[k].end <= st.size && st.spans[k].start <= current < st.spans[k].end && 0 < left
    ensures RequestEnd(st, k, current, left) == Min(current + left, st.spans[k].end)
  {
  }

  lemma {:induction false} CorrectingFinds(articles: Articles, st: State, k: nat, current: int, left: int)
    requires Checked(st) && st.valid && 0 <= current < st.size && 0 < left
    requires k == Covering(st.spans, current) && k < |st.spans|
    requires TurnAt(articles, st.spans[k], current, RequestEnd(st, k, current, left)).Correcting?
    ensures var out := ReadFrom(articles, st, current, left);
      |out.state.spans| == |st.spans|
      && AllFound(articles, st.spans, out.state.spans, current, current + left, current, out.written)
    decreases LooseCount(articles, st.spans), left, 0
  {
    hide LooseCount, TurnAt, Realigned, Covering, Tiles, Loose, AllFound, Published, Corrected;
    ReadFromStep(articles, st, current, left);
    TurnFacts(articles, st.spans[k], current, RequestEnd(st, k, current, left));
    CoveringBefore(st.spans, current);
    TilesAt(st.spans, 0, st.size, k);
    RequestInside(st, k, current, left);
    ChangeKept(articles, st, k, current, left);
    ReadFinds(articles, Published(st.spans, k, articles[st.spans[k].messageId]), current, left);
    ChangeFound(articles, st, k, current, current, left, current + left);
  }

  lemma {:induction false} GrowingFinds(articles: Articles, st: State, k: nat, current: int, left: int)
    requires Checked(st) && st.valid && 0 <= current < st.size && 0 < left
    requires k == Covering(st.spans, current) && k < |st.spans|
    requires TurnAt(articles, st.spans[k], current, RequestEnd(st, k, current, left)).Growing?
    ensures var out := ReadFrom(articles, st, current, left);
      |out.state.spans| == |st.spans|
      && AllFound(articles, st.spans, out.state.spans, current, current + left, current, out.written)
    decreases LooseCount(articles, st.spans), left, 0
  {
    hide LooseCount, TurnAt, Realigned, Covering, Tiles, Loose, AllFound, Published, Corrected, Supply;
    ReadFromStep(articles, st, current, left);
    var span, to := st.spans[k], RequestEnd(st, k, current, left);
    TurnFacts(articles, span, current, to);
    var block := TurnAt(articles, span, current, to).block;
    CoveringBefore(st.spans, current);
    TilesAt(st.spans, 0, st.size, k);
    RequestInside(st, k, current, left);
    GrownFits(articles, span, to);
    ChangeKept(articles, st, k, to, left - |block|);
    var out := ReadFrom(articles, Published(st.spans, k, articles[span.messageId]), to, left - |block|);
    ReadFinds(articles, Published(st.spans, k, articles[span.messageId]), to, left - |block|);
    ChangeFound(articles, st, k, current, to, left - |block|, current + left);
    CorrectedSame(articles[span.messageId], span);
    BlockFound(articles, span, out.state.spans[k], current, current + left, to);
    BlockAllFound(articles, st.spans, out.state.spans, k, current, current + left, block);
    FoundAfter(articles, st.spans, out.state.spans, current, current + left, current, block, out.written);
  }

  lemma BlockAllFound(articles: Articles, before: seq<SegmentSpan>, after: seq<SegmentSpan>, k: nat,
                      current: int, stop: int, block: seq<byte>)
    requires k < |before| == |after|
    requires forall i | 0 <= i < |block| :: FoundBy(articles, before[k], after[k], current, stop, current + i, block[i])
    ensures AllFound(articles, before, after, current, stop, current, block)
  {
    hide FoundBy;
  }

  lemma {:induction false} PassingFinds(articles: Articles, st: State, k: nat, current: int, left: int)
    requires Checked(st) && st.valid && 0 <= current < st.size && 0 < left
    requires k == Covering(st.spans, current) && k < |st.spans|
    requires TurnAt(articles, st.spans[k], current, RequestEnd(st, k, current, left)).Passing?
    ensures var out := ReadFrom(articles, st, current, left);
      |out.state.spans| == |st.spans|
      && AllFound(articles, st.spans, out.state.spans, current, current + left, current, out.written)
    decreases LooseCount(articles, st.spans), left, 0
  {
    hide LooseCount, TurnAt, Covering, Tiles, Loose, AllFound, ReadFrom, FoundBy, Published;
    ReadFromStep(articles, st, current, left);
    var span, to := st.spans[k], RequestEnd(st, k, current, left);
    TurnFacts(articles, span, current, to);
    var block := TurnAt(articles, span, current, to).block;
    TilesAt(st.spans, 0, st.size, k);
    RequestInside(st, k, current, left);
    var out := ReadFrom(articles, st, to, left - |block|);
    ReadFinds(articles, st, to, left - |block|);
    if left > |block| {
      PassBehind(articles, st, k, current, to, left - |block|, current + left);
    } else {
      ReadFromEnds(articles, st, to, left - |block|);
      NoBytesFrom(articles, st.spans, current, current + left, to);
    }
    BlockFound(articles, span, out.state.spans[k], current, current + left, to);
    BlockAllFound(articles, st.spans, out.state.spans, k, current, current + left, block);
    FoundAfter(articles, st.spans, out.state.spans, current, current + left, current, block, out.written);
  }

  lemma NoBytesFrom(articles: Articles, spans: seq<SegmentSpan>, current: int, stop: int, from: int)
    ensures AllFound(articles, spans, spans, current, stop, from, [])
  {
  }

  /** The rest of a read behind an untroubled turn that used up its span. */
  lemma PassBehind(articles: Articles, st: State, k: nat, current: int, to: int, left: int, stop: int)
    requires Checked(st) && st.valid && Tiles(st.spans, 0, st.size) && k < |st.spans|
    requires 0 <= st.spans[k].start <= current < to == st.spans[k].end
    requires var out := ReadFrom(articles, st, to, left);
      |out.state.spans| == |st.spans| && AllFound(articles, st.spans, out.state.spans, to, stop, to, out.written)
    ensures var out := ReadFrom(articles, st, to, left);
      && out.state.spans[k] == st.spans[k]
      && AllFound(articles, st.spans, out.state.spans, current, stop, to, out.written)
  {
    hide Loose, ReadFrom, Covering, Tiles, Found, Chained;
    var out := ReadFrom(articles, st, to, left);
    forall j | 0 <= j < k + 1 ensures st.spans[j].end <= to {
      TilesAt(st.spans, 0, st.size, j);
    }
    CoveringAtLeast(st.spans, to, k + 1);
    SpansKept(articles, st, to, left);
    TilesChained(st.spans, 0, st.size);
    ReadChained(articles, st, to, left);
    forall i | 0 <= i < |out.written|
      ensures Found(articles, st.spans, out.state.spans, current, stop, to + i, out.written[i])
    {
      FoundBehind(articles, st.spans, k, out.state.spans, current, to, stop, to + i, out.written[i]);
    }
  }

  /** The same for a whole call: however wrong the spans are, a call of the reader never returns a byte from any
      other place. */
  lemma CallFinds(articles: Articles, st: State, want: nat, offset: int)
    requires Checked(st)
    ensures var out := ReadSpec(articles, st, want, offset);
      |out.state.spans| == |st.spans|
      && AllFound(articles, st.spans, out.state.spans, offset, offset + Min(want, st.size - offset), offset,
                  out.written)
  {
    hide ReadFrom, AllFound;
    if st.valid && 0 <= offset < st.size {
      ReadFinds(articles, st, offset, Min(want, st.size - offset));
    } else {
      NoBytesFound(articles, st.spans, offset, offset + Min(want, st.size - offset));
    }
  }
}
