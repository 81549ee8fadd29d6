/** Reading a stored_rar file (`StoredRarReader`): the read loop, and the correction of the span table from
    what a fetched article turns out to be (`realignSpan`). One reader at a time; the articles stay what
    they are. */
module StoredRarReader {
  import opened Bytes
  import opened SpanLayout

  datatype Option<+T> = None | Some(value: T)

  /** A posted article: its decoded bytes and, if its header says so, where they begin in the decoded file. */
  datatype Article = Article(bytes: seq<byte>, position: Option<int>)

  type Articles = map<string, Article>

  const MIN_REALIGN_SANITY_BOUND := 65536

  function Length(span: SegmentSpan): int { span.end - span.start }

  // ----- The fetcher -----------------------------------------------------------------------------------------

  /** Where the fetcher says the article begins, and how long it says it is: the span's own assumptions when
      the article does not tell. */
  function MeasuredStart(a: Article, span: SegmentSpan): int {
    if a.position.Some? then a.position.value else span.decodedStart
  }

  function MeasuredSize(a: Article, span: SegmentSpan): int {
    if a.position.Some? then |a.bytes| else span.segmentByteStart + Length(span)
  }

  /** How far the span's assumed article position is behind the real one. */
  function Drift(a: Article, span: SegmentSpan): int { span.decodedStart - MeasuredStart(a, span) }

  /** The length the span gets when it is corrected. */
  function Supply(a: Article, span: SegmentSpan): int { Max(MeasuredSize(a, span) - span.segmentByteStart, 0) }

  /** The position is so far off that the fetcher takes it for a wrong article. */
  predicate Wild(a: Article, span: SegmentSpan) {
    var bound := Max(Length(span) + span.segmentByteStart, MIN_REALIGN_SANITY_BOUND);
    Drift(a, span) > bound || -Drift(a, span) > bound
  }

  /** Where in its article the fetcher looks for position `p` of the file. */
  function Place(a: Article, span: SegmentSpan, p: int): int {
    span.segmentByteStart + (p - span.start) + Drift(a, span)
  }

  /** The bytes [from, to) of an article, cut at its end; nothing when they begin before it. */
  function Clip(bytes: seq<byte>, from: int, to: int): seq<byte> {
    if from < 0 || from >= Min(to, |bytes|) then [] else bytes[from..Min(to, |bytes|)]
  }

  /** What comes back for the positions [from, to) of the file, all inside the span; nothing on an error. */
  function Fetch(articles: Articles, span: SegmentSpan, from: int, to: int): Option<seq<byte>> {
    if span.messageId !in articles || Wild(articles[span.messageId], span) then None
    else
      var a := articles[span.messageId];
      Some(Clip(a.bytes, Place(a, span, from), Place(a, span, to)))
  }

  // ----- One correction --------------------------------------------------------------------------------------

  /** The span is what its article says. */
  predicate Fits(a: Article, span: SegmentSpan) {
    Drift(a, span) == 0 && Length(span) == Supply(a, span)
  }

  function Corrected(a: Article, span: SegmentSpan): SegmentSpan {
    span.(decodedStart := MeasuredStart(a, span), end := span.start + Supply(a, span))
  }

  function Shifted(spans: seq<SegmentSpan>, delta: int): seq<SegmentSpan> {
    if spans == [] then []
    else [spans[0].(start := spans[0].start + delta, end := spans[0].end + delta)] + Shifted(spans[1..], delta)
  }

  /** The table with span `k` corrected and every later span moved along. */
  function Realigned(spans: seq<SegmentSpan>, k: nat, a: Article): (after: seq<SegmentSpan>)
    requires k < |spans|
    decreases |spans|
  {
    if k == 0 then [Corrected(a, spans[0])] + Shifted(spans[1..], Growth(a, spans[0]))
    else [spans[0]] + Realigned(spans[1..], k - 1, a)
  }

  /** How much longer the span gets when it is corrected. */
  function Growth(a: Article, span: SegmentSpan): int { Supply(a, span) - Length(span) }

  /** The published state of the reader. */
  datatype State = State(spans: seq<SegmentSpan>, size: int, valid: bool)

  ghost predicate Accepted(spans: seq<SegmentSpan>, size: int) {
    size == 0 || (size > 0 && Tiles(spans, 0, size))
  }

  /** The state of a reader of a given table. */
  ghost function Opened(spans: seq<SegmentSpan>, size: int): State {
    State(spans, size, Accepted(spans, size))
  }

  /** The state after correcting span `k`. */
  ghost function Published(spans: seq<SegmentSpan>, k: nat, a: Article): State
    requires k < |spans|
  {
    var realigned := Realigned(spans, k, a);
    if realigned == [] then Opened([], 0) else Opened(realigned, realigned[|realigned| - 1].end)
  }

  ghost predicate DistinctIds(spans: seq<SegmentSpan>) {
    forall i, j | 0 <= i < j < |spans| :: spans[i].segmentId != spans[j].segmentId
  }

  function Moved(span: SegmentSpan, delta: int): SegmentSpan {
    span.(start := span.start + delta, end := span.end + delta)
  }

  lemma {:induction false} ShiftedAt(spans: seq<SegmentSpan>, delta: int)
    ensures |Shifted(spans, delta)| == |spans|
    ensures forall i | 0 <= i < |spans| :: Shifted(spans, delta)[i] == Moved(spans[i], delta)
  {
    if spans != [] {
      ShiftedAt(spans[1..], delta);
    }
  }

  lemma {:induction false} ShiftedTiles(spans: seq<SegmentSpan>, lo: int, hi: int, delta: int)
    requires Tiles(spans, lo, hi)
    ensures Tiles(Shifted(spans, delta), lo + delta, hi + delta)
  {
    if spans != [] {
      ShiftedTiles(spans[1..], spans[0].end, hi, delta);
    }
  }

  /** A correction leaves the spans before it alone, and moves those behind it by one and the same amount. */
  lemma {:induction false} RealignedAt(spans: seq<SegmentSpan>, k: nat, a: Article)
    requires k < |spans|
    ensures |Realigned(spans, k, a)| == |spans|
    ensures forall i | 0 <= i < k :: Realigned(spans, k, a)[i] == spans[i]
    ensures Realigned(spans, k, a)[k] == Corrected(a, spans[k])
    ensures forall i | k < i < |spans| :: Realigned(spans, k, a)[i] == Moved(spans[i], Growth(a, spans[k]))
    decreases k
  {
    hide Corrected, Growth, Moved;
    if k == 0 {
      ShiftedAt(spans[1..], Growth(a, spans[0]));
    } else {
      RealignedAt(spans[1..], k - 1, a);
    }
  }

  /** A correction that leaves the span something keeps the table a layout from the same beginning; one that
      empties it never does. */
  lemma {:induction false} RealignedTilesExactly(spans: seq<SegmentSpan>, lo: int, hi: int, k: nat, a: Article)
    requires Tiles(spans, lo, hi) && k < |spans|
    ensures Tiles(Realigned(spans, k, a), lo, hi + Growth(a, spans[k])) <==> Supply(a, spans[k]) > 0
    decreases k
  {
    if k == 0 {
      ShiftedTiles(spans[1..], spans[0].end, hi, Growth(a, spans[0]));
    } else {
      RealignedTilesExactly(spans[1..], spans[0].end, hi, k - 1, a);
    }
  }

  lemma RealignedEnd(spans: seq<SegmentSpan>, lo: int, hi: int, k: nat, a: Article)
    requires Tiles(spans, lo, hi) && k < |spans|
    ensures |Realigned(spans, k, a)| == |spans|
    ensures Realigned(spans, k, a)[|spans| - 1].end == hi + Growth(a, spans[k])
  {
    RealignedAt(spans, k, a);
    TilesSplit(spans, lo, hi, |spans|);
  }

  lemma CorrectedFits(a: Article, span: SegmentSpan)
    ensures Fits(a, Corrected(a, span))
  {
  }

  /** A table whose state is published after a correction is a layout unless the correction emptied the span,
      and then only if that was the whole file. */
  lemma PublishedExactly(spans: seq<SegmentSpan>, size: int, k: nat, a: Article)
    requires Tiles(spans, 0, size) && k < |spans|
    ensures var after := Published(spans, k, a);
      && after.spans == Realigned(spans, k, a) && after.size == size + Growth(a, spans[k]) >= 0
      && (after.valid <==> Supply(a, spans[k]) > 0 || |spans| == 1)
  {
    hide Tiles, Growth, Supply;
    RealignedAt(spans, k, a);
    RealignedEnd(spans, 0, size, k, a);
    RealignedTilesExactly(spans, 0, size, k, a);
    GrowthBounds(spans, size, k, a);
  }

  lemma GrowthBounds(spans: seq<SegmentSpan>, size: int, k: nat, a: Article)
    requires Tiles(spans, 0, size) && k < |spans|
    ensures 0 <= size + Growth(a, spans[k])
    ensures size + Growth(a, spans[k]) == 0 <==> Supply(a, spans[k]) == 0 && |spans| == 1
    ensures Supply(a, spans[k]) >= 0
  {
    TilesAt(spans, 0, size, k);
    if k > 0 {
      TilesAt(spans, 0, size, 0);
    }
    if k < |spans| - 1 {
      TilesAt(spans, 0, size, |spans| - 1);
    }
    TilesSplit(spans, 0, size, |spans|);
    TilesSplit(spans, 0, size, k);
  }

  // ----- How many spans are wrong -----------------------------------------------------------------------------

  predicate Loose(articles: Articles, span: SegmentSpan) {
    span.messageId in articles && !Fits(articles[span.messageId], span)
  }

  function LooseCount(articles: Articles, spans: seq<SegmentSpan>): nat {
    if spans == [] then 0 else LooseCount(articles, spans[1..]) + if Loose(articles, spans[0]) then 1 else 0
  }

  lemma {:induction false} LooseShifted(articles: Articles, spans: seq<SegmentSpan>, delta: int)
    ensures LooseCount(articles, Shifted(spans, delta)) == LooseCount(articles, spans)
  {
    if spans != [] {
      LooseShifted(articles, spans[1..], delta);
    }
  }

  /** Every correction leaves one wrong span less. */
  lemma {:induction false} LooseRealigned(articles: Articles, spans: seq<SegmentSpan>, k: nat)
    requires k < |spans| && Loose(articles, spans[k])
    ensures LooseCount(articles, Realigned(spans, k, articles[spans[k].messageId])) == LooseCount(articles, spans) - 1
    decreases k
  {
    hide Fits, Corrected;
    var a := articles[spans[k].messageId];
    if k == 0 {
      LooseShifted(articles, spans[1..], Growth(a, spans[0]));
      CorrectedFits(a, spans[0]);
      CorrectedSame(a, spans[0]);
    } else {
      LooseRealigned(articles, spans[1..], k - 1);
    }
  }

  lemma CorrectedSame(a: Article, span: SegmentSpan)
    ensures Corrected(a, span).messageId == span.messageId && Corrected(a, span).segmentId == span.segmentId
    ensures Corrected(a, span).start == span.start && Corrected(a, span).entryTruncated == span.entryTruncated
    ensures Corrected(a, span).segmentByteStart == span.segmentByteStart
  {
  }

  // ----- One turn of the read loop -----------------------------------------------------------------------------

  /** What one fetch of the positions [from, to) of a span leads to. */
  datatype Turn =
    | Failing                       // the fetch fails
    | Correcting                    // too few bytes, and the span is wrong: correct it and try again
    | Stalling                      // no bytes, and nothing to correct
    | Cutting                       // too few bytes, and nothing to correct
    | Growing(block: seq<byte>)     // all bytes, and more behind the span: correct it and go on
    | Passing(block: seq<byte>)     // all bytes

  function TurnAt(articles: Articles, span: SegmentSpan, from: int, to: int): Turn {
    match Fetch(articles, span, from, to)
    case None => Failing
    case Some(block) =>
      var a := articles[span.messageId];
      if |block| < to - from then
        if !Fits(a, span) then Correcting else if block == [] then Stalling else Cutting
      else if to == span.end && !span.entryTruncated && MeasuredSize(a, span) - span.segmentByteStart > Length(span)
      then Growing(block)
      else Passing(block)
  }

  predicate Changes(turn: Turn) { turn.Correcting? || turn.Growing? }

  lemma TurnFacts(articles: Articles, span: SegmentSpan, from: int, to: int)
    requires from < to
    ensures !TurnAt(articles, span, from, to).Failing? ==> span.messageId in articles
    ensures Changes(TurnAt(articles, span, from, to)) ==> Loose(articles, span)
    ensures TurnAt(articles, span, from, to).Growing? ==>
              to == span.end && Supply(articles[span.messageId], span) > Length(span)
    ensures TurnAt(articles, span, from, to).Growing? ==> |TurnAt(articles, span, from, to).block| == to - from
    ensures TurnAt(articles, span, from, to).Passing? ==> |TurnAt(articles, span, from, to).block| == to - from
  {
  }

  // ----- A whole read -------------------------------------------------------------------------------------------

  /** The first span that ends behind `p`. */
  function Covering(spans: seq<SegmentSpan>, p: int): nat {
    if spans == [] || spans[0].end > p then 0 else 1 + Covering(spans[1..], p)
  }

  lemma {:induction false} CoveringInside(spans: seq<SegmentSpan>, lo: int, hi: int, p: int)
    requires Tiles(spans, lo, hi) && lo <= p < hi
    ensures Covering(spans, p) < |spans|
    ensures spans[Covering(spans, p)].start <= p < spans[Covering(spans, p)].end <= hi
  {
    TilesSplit(spans, lo, hi, 1);
    if spans[0].end <= p {
      CoveringInside(spans[1..], spans[0].end, hi, p);
    }
  }

  lemma {:induction false} CoveringUnique(spans: seq<SegmentSpan>, lo: int, hi: int, p: int, k: nat)
    requires Tiles(spans, lo, hi) && k < |spans| && spans[k].start <= p < spans[k].end
    ensures Covering(spans, p) == k && lo <= p < hi
  {
    TilesAt(spans, lo, hi, k);
    if k > 0 {
      TilesAt(spans, lo, hi, 0);
      CoveringUnique(spans[1..], spans[0].end, hi, p, k - 1);
    }
  }

  datatype Ending = Filled | Eof | LayoutInvalid | OutsideFile | FetchFailed | ShortFetch

  datatype Outcome = Outcome(written: seq<byte>, state: State, ending: Ending)

  /** What a reader starts from: the verdict on the table is up to date. */
  ghost predicate Checked(st: State) { st.valid == Accepted(st.spans, st.size) }

  /** The end of the next request. */
  function RequestEnd(st: State, k: nat, current: int, left: int): int
    requires k < |st.spans|
  {
    Min(st.spans[k].end, current + Min(left, st.size - current))
  }

  /** Read `left` bytes from position `current` on. */
  ghost function ReadFrom(articles: Articles, st: State, current: int, left: int): Outcome
    requires Checked(st) && 0 <= current
    decreases LooseCount(articles, st.spans), left
  {
    if left <= 0 then Outcome([], st, Filled)
    else if !st.valid then Outcome([], st, LayoutInvalid)
    else if current >= st.size then Outcome([], st, Eof)
    else
      CoveringInside(st.spans, 0, st.size, current);
      var k := Covering(st.spans, current);
      var span, to := st.spans[k], RequestEnd(st, k, current, left);
      TurnFacts(articles, span, current, to);
      match TurnAt(articles, span, current, to)
      case Failing => Outcome([], st, FetchFailed)
      case Stalling => Outcome([], st, Eof)
      case Cutting => Outcome([], st, ShortFetch)
      case Correcting =>
        LooseStep(articles, st, k);
        ReadFrom(articles, Published(st.spans, k, articles[span.messageId]), current, left)
      case Growing(block) =>
        LooseStep(articles, st, k);
        Behind(block, ReadFrom(articles, Published(st.spans, k, articles[span.messageId]), to, left - |block|))
      case Passing(block) =>
        Behind(block, ReadFrom(articles, st, to, left - |block|))
  }

  function Behind(block: seq<byte>, rest: Outcome): Outcome { rest.(written := block + rest.written) }

  lemma LooseStep(articles: Articles, st: State, k: nat)
    requires k < |st.spans| && Loose(articles, st.spans[k]) && Tiles(st.spans, 0, st.size)
    ensures var after := Published(st.spans, k, articles[st.spans[k].messageId]);
      Checked(after) && LooseCount(articles, after.spans) < LooseCount(articles, st.spans)
  {
    hide Realigned, LooseCount, Fits;
    LooseRealigned(articles, st.spans, k);
    PublishedExactly(st.spans, st.size, k, articles[st.spans[k].messageId]);
  }

  /** One whole call. */
  ghost function ReadSpec(articles: Articles, st: State, want: nat, offset: int): Outcome
    requires Checked(st)
  {
    if !st.valid then Outcome([], st, LayoutInvalid)
    else if offset < 0 then Outcome([], st, OutsideFile)
    else if offset >= st.size then Outcome([], st, Eof)
    else
      var length := Min(want, st.size - offset);
      var out := ReadFrom(articles, st, offset, length);
      if out.ending.Filled? && length < want then out.(ending := Eof) else out
  }

  // ----- The reader -----------------------------------------------------------------------------------------------

  /** `sort.Search` for the first span that ends past `offset`: it needs no order to keep its promise. */
  method SearchEnd(spans: seq<SegmentSpan>, offset: int) returns (i: nat)
    ensures i <= |spans|
    ensures i < |spans| ==> spans[i].end > offset
    ensures i > 0 ==> spans[i - 1].end <= offset
  {
    var j := |spans|;
    i := 0;
    while i < j
      invariant 0 <= i <= j <= |spans|
      invariant i > 0 ==> spans[i - 1].end <= offset
      invariant j < |spans| ==> spans[j].end > offset
    {
      var h := (i + j) / 2;
      if spans[h].end > offset {
        j := h;
      } else {
        i := h + 1;
      }
    }
  }

  /** In a layout of [0, size) every offset inside is found, in the one span that covers it. */
  method FindStoredRarSpan(spans: seq<SegmentSpan>, offset: int, ghost size: int) returns (found: Option<nat>)
    requires Tiles(spans, 0, size)
    ensures found.Some? <==> 0 <= offset < size
    ensures found.Some? ==> found.value < |spans| && spans[found.value].start <= offset < spans[found.value].end
    ensures found.Some? ==> found.value == Covering(spans, offset)
  {
    var i := SearchEnd(spans, offset);
    TilesSplit(spans, 0, size, i);
    if i < |spans| {
      TilesAt(spans, 0, size, i);
    }
    if i < |spans| && spans[i].start <= offset {
      CoveringUnique(spans, 0, size, offset, i);
      return Some(i);
    }
    return None;
  }

  /** The loop that moves the later spans along. */
  method ShiftLater(spans: seq<SegmentSpan>, index: nat, delta: int) returns (shifted: seq<SegmentSpan>)
    requires index < |spans|
    ensures |shifted| == |spans| && forall i | 0 <= i <= index :: shifted[i] == spans[i]
    ensures forall i | index < i < |spans| :: shifted[i] == Moved(spans[i], delta)
  {
    shifted := spans;
    for i := index + 1 to |spans|
      invariant |shifted| == |spans| && forall j | 0 <= j <= index :: shifted[j] == spans[j]
      invariant forall j | index < j < i :: shifted[j] == Moved(spans[j], delta)
      invariant forall j | i <= j < |spans| :: shifted[j] == spans[j]
    {
      shifted := shifted[i := shifted[i].(start := shifted[i].start + delta, end := shifted[i].end + delta)];
    }
  }

  /** What acting on the answer to a fetch comes to. */
  ghost predicate Answered(articles: Articles, turn: Turn, st: State, after: State, k: nat,
                           taken: seq<byte>, ended: Option<Ending>, stalled: bool)
  {
    && k < |st.spans| && (Changes(turn) ==> st.spans[k].messageId in articles)
    && after == (if Changes(turn) then Published(st.spans, k, articles[st.spans[k].messageId]) else st)
    && taken == (if turn.Growing? || turn.Passing? then turn.block else [])
    && ended == (if turn.Failing? then Some(FetchFailed) else if turn.Cutting? then Some(ShortFetch) else None)
    && (stalled <==> turn.Stalling?)
  }

  /** One turn is done: the rest of the read is what is left to do, and there is less of it. */
  ghost predicate TurnDone(articles: Articles, st: State, after: State, current: int, left: int,
                           taken: seq<byte>, ended: Option<Ending>, stalled: bool)
    requires Checked(st) && Checked(after) && 0 <= current
  {
    var whole := ReadFrom(articles, st, current, left);
    && |taken| <= left
    && (ended.Some? || stalled ==> after == st && taken == [])
    && (ended.Some? ==> !stalled && !ended.value.Filled? && whole == Outcome([], st, ended.value))
    && (stalled ==> whole == Outcome([], st, Eof))
    && (ended.None? ==> whole == Behind(taken, ReadFrom(articles, after, current + |taken|, left - |taken|)))
    && (ended.None? && !stalled ==>
          LooseCount(articles, after.spans) < LooseCount(articles, st.spans) || (after == st && |taken| > 0))
  }

  lemma TurnIsDone(articles: Articles, st: State, after: State, current: int, left: int,
                   taken: seq<byte>, ended: Option<Ending>, stalled: bool)
    requires Checked(st) && Checked(after) && st.valid && 0 <= current < st.size && 0 < left
    requires var k := Covering(st.spans, current);
      k < |st.spans| &&
      Answered(articles, TurnAt(articles, st.spans[k], current, RequestEnd(st, k, current, left)), st, after, k, taken,
               ended, stalled)
    ensures TurnDone(articles, st, after, current, left, taken, ended, stalled)
  {
    hide Tiles, TurnAt, LooseCount, ReadFrom, Published, Covering, Checked;
    var k := Covering(st.spans, current);
    var to := RequestEnd(st, k, current, left);
    ReadFromStep(articles, st, current, left);
    TurnFacts(articles, st.spans[k], current, to);
    if Changes(TurnAt(articles, st.spans[k], current, to)) {
      LooseStep(articles, st, k);
    }
    BehindNothing(ReadFrom(articles, after, current, left));
  }

  /** The corrected copy of a table. */
  method CorrectTable(spans: seq<SegmentSpan>, index: nat, start: int, available: int, ghost a: Article)
    returns (corrected: seq<SegmentSpan>)
    requires index < |spans| && start == MeasuredStart(a, spans[index]) && available == Supply(a, spans[index])
    ensures corrected == Realigned(spans, index, a)
  {
    hide MeasuredStart, Supply;
    corrected := spans[index := spans[index].(decodedStart := start, end := spans[index].start + available)];
    var delta := corrected[index].end - spans[index].end;
    if delta != 0 {
      corrected := ShiftLater(corrected, index, delta);
    }
    RealignedIs(spans, index, a, corrected);
  }

  lemma FitsIs(a: Article, span: SegmentSpan, start: int, length: int)
    requires start == MeasuredStart(a, span) && length == MeasuredSize(a, span)
    ensures Fits(a, span) <==> span.decodedStart == start && Length(span) == Max(length - span.segmentByteStart, 0)
    ensures Supply(a, span) == Max(length - span.segmentByteStart, 0)
  {
  }

  lemma PublishedIs(spans: seq<SegmentSpan>, k: nat, a: Article)
    requires k < |spans|
    ensures var after := Realigned(spans, k, a);
      after != [] && Published(spans, k, a) == Opened(after, after[|after| - 1].end)
  {
    RealignedAt(spans, k, a);
  }

  lemma AcceptedIs(spans: seq<SegmentSpan>, size: int)
    ensures Accepted(spans, size) <==> size == 0 || (size > 0 && Tiles(spans, 0, size))
  {
  }

  class Reader {
    const articles: Articles
    var spans: seq<SegmentSpan>
    var size: int
    var layoutValid: bool
    var version: nat

    ghost function Current(): State
      reads this
    {
      State(spans, size, layoutValid)
    }

    /** The verdict on the table is up to date, and segment IDs tell spans apart. */
    ghost predicate Valid()
      reads this
    {
      Checked(Current()) && DistinctIds(spans)
    }

    constructor (articles: Articles, spans: seq<SegmentSpan>, size: int)
      requires DistinctIds(spans)
      ensures Valid() && Current() == Opened(spans, size) && this.articles == articles
    {
      this.articles, this.spans, this.size, version := articles, spans, size, 0;
      var valid := ValidateStoredRarSpans(spans, size);
      layoutValid := valid;
    }

    /** Correct the span of a segment from the article's measurement and publish the new table; nothing
        happens when the span is right already. */
    method Realign(segmentId: int, start: int, length: int, ghost k: nat) returns (changed: bool)
      requires Valid() && k < |spans| && spans[k].segmentId == segmentId && spans[k].messageId in articles
      requires start == MeasuredStart(articles[spans[k].messageId], spans[k])
      requires length == MeasuredSize(articles[spans[k].messageId], spans[k])
      requires Tiles(spans, 0, size)
      modifies this
      ensures Valid() && changed == !Fits(articles[old(spans[k]).messageId], old(spans[k]))
      ensures Current() ==
        if changed then Published(old(spans), k, articles[old(spans[k]).messageId]) else old(Current())
      ensures version == old(version) + if changed then 1 else 0
    {
      hide Tiles, DistinctIds, Realigned, Accepted, MeasuredStart, MeasuredSize;
      var index := FindSegment(segmentId, k);
      ghost var a := articles[spans[k].messageId];
      var available := length - spans[index].segmentByteStart;
      if available < 0 {
        available := 0;
      }
      FitsIs(a, spans[k], start, length);
      if spans[index].decodedStart == start && spans[index].end - spans[index].start == available {
        return false;
      }
      var corrected := CorrectTable(spans, index, start, available, a);
      RealignedIds(spans, k, a);
      PublishedIs(spans, k, a);
      var newSize := corrected[|corrected| - 1].end;
      var valid := ValidateStoredRarSpans(corrected, newSize);
      AcceptedIs(corrected, newSize);
      spans, size, layoutValid, version := corrected, newSize, valid, version + 1;
      changed := true;
    }

    /** `FetchRangeInfo`: the bytes and the article's measurement, or an error. */
    method FetchRangeInfo(span: SegmentSpan, from: int, to: int)
        returns (block: Option<seq<byte>>, start: int, length: int)
      ensures block == Fetch(articles, span, from, to)
      ensures block.Some? ==> span.messageId in articles && start == MeasuredStart(articles[span.messageId], span)
                              && length == MeasuredSize(articles[span.messageId], span)
    {
      block, start, length := Fetch(articles, span, from, to), 0, 0;
      if span.messageId in articles {
        start, length := MeasuredStart(articles[span.messageId], span), MeasuredSize(articles[span.messageId], span);
      }
    }

    /** Fill a buffer of `want` bytes from `offset` on. */
    method ReadAt(want: nat, offset: int) returns (written: seq<byte>, ending: Ending)
      requires Valid()
      modifies this
      ensures Valid() && Outcome(written, Current(), ending) == ReadSpec(articles, old(Current()), want, offset)
    {
      written := [];
      if !layoutValid {
        return written, LayoutInvalid;
      }
      if offset < 0 {
        return written, OutsideFile;
      }
      if offset >= size {
        return written, Eof;
      }
      var length: int := want;
      if length > size - offset {
        length := size - offset;
      }
      written, ending := ReadLoop(offset, length);
      if ending.Filled? && |written| < want {
        ending := Eof;
      }
    }

    method ReadLoop(offset: int, length: int) returns (written: seq<byte>, ending: Ending)
      requires Valid() && 0 <= offset && 0 <= length
      modifies this
      ensures Valid() && Outcome(written, Current(), ending) == ReadFrom(articles, old(Current()), offset, length)
      ensures ending.Filled? ==> |written| == length
    {
      hide Tiles, DistinctIds, ReadFrom, LooseCount, Accepted;
      ghost var whole := ReadFrom(articles, Current(), offset, length);
      written := [];
      BehindNothing(whole);
      var current, emptyCount := offset, 0;
      while |written| < length
        invariant Valid() && current == offset + |written| && |written| <= length && emptyCount <= 5
        invariant Behind(written, ReadFrom(articles, Current(), current, length - |written|)) == whole
        decreases LooseCount(articles, spans), length - |written|, 6 - emptyCount
      {
        ReadFromEnds(articles, Current(), current, length - |written|);
        if !layoutValid {
          return written, LayoutInvalid;
        }
        if current >= size {
          return written, Eof;
        }
        var taken, ended, stalled := OneTurn(current, length - |written|);
        if ended.Some? {
          return written, ended.value;
        }
        BehindTwice(written, taken, ReadFrom(articles, Current(), current + |taken|, length - |written| - |taken|));
        if stalled {
          emptyCount := emptyCount + 1;
          if emptyCount > 5 {
            return written, Eof;
          }
        } else if |taken| > 0 {
          emptyCount := 0;
        }
        written := written + taken;
        current := current + |taken|;
      }
      ReadFromEnds(articles, Current(), current, length - |written|);
      return written, Filled;
    }

    /** One turn of the loop: fetch up to the end of the span at `current`, correct the table if the answer
        calls for it, and keep the bytes if there are enough. */
    method OneTurn(current: int, left: int) returns (taken: seq<byte>, ended: Option<Ending>, stalled: bool)
      requires Valid() && layoutValid && 0 <= current < size && 0 < left
      modifies this
      ensures Valid() && TurnDone(articles, old(Current()), Current(), current, left, taken, ended, stalled)
    {
      hide Tiles, DistinctIds, Fetch, Fits, LooseCount, ReadFrom, TurnAt, TurnDone, Covering, Realigned;
      ghost var st := Current();
      ReadFromStep(articles, st, current, left);
      var found := FindStoredRarSpan(spans, current, size);
      var span := spans[found.value];
      var to := span.end;
      var remaining := left;
      if remaining > size - current {
        remaining := size - current;
      }
      if to > current + remaining {
        to := current + remaining;
      }
      assert to == RequestEnd(st, found.value, current, left);
      taken, ended, stalled := Answer(span, current, to, found.value);
      TurnIsDone(articles, st, Current(), current, left, taken, ended, stalled);
    }

    /** Fetch the positions [from, to) of span `k` and act on the answer. */
    method Answer(span: SegmentSpan, from: int, to: int, ghost k: nat)
      returns (taken: seq<byte>, ended: Option<Ending>, stalled: bool)
      requires Valid() && k < |spans| && spans[k] == span && Tiles(spans, 0, size) && from < to
      modifies this
      ensures Valid() && Answered(articles, TurnAt(articles, span, from, to), old(Current()), Current(), k, taken,
                                  ended, stalled)
    {
      hide Tiles, DistinctIds, Fetch, MeasuredSize, MeasuredStart, Published, Checked;
      taken, ended, stalled := [], None, false;
      TurnFacts(articles, span, from, to);
      var block, start, measured := FetchRangeInfo(span, from, to);
      if block.None? {
        ended := Some(FetchFailed);
        return;
      }
      if |block.value| < to - from {
        var changed := Realign(span.segmentId, start, measured, k);
        stalled := !changed && |block.value| == 0;
        ended := if changed || stalled then None else Some(ShortFetch);
        return;
      }
      if to == span.end && !span.entryTruncated {
        if measured - span.segmentByteStart > span.end - span.start {
          var _ := Realign(span.segmentId, start, measured, k);
        }
      }
      taken := block.value;
    }

    method FindSegment(segmentId: int, ghost k: nat) returns (index: nat)
      requires DistinctIds(spans) && k < |spans| && spans[k].segmentId == segmentId
      ensures index == k
    {
      index := 0;
      while spans[index].segmentId != segmentId
        invariant index <= k
        decreases k - index
      {
        index := index + 1;
      }
    }
  }

  lemma BehindTwice(a: seq<byte>, b: seq<byte>, rest: Outcome)
    ensures Behind(a, Behind(b, rest)) == Behind(a + b, rest)
  {
    assert a + (b + rest.written) == (a + b) + rest.written;
  }

  lemma BehindNothing(rest: Outcome)
    ensures Behind([], rest) == rest
  {
  }

  /** A read that takes no turn. */
  lemma ReadFromEnds(articles: Articles, st: State, current: int, left: int)
    requires Checked(st) && 0 <= current
    ensures left <= 0 ==> ReadFrom(articles, st, current, left) == Outcome([], st, Filled)
    ensures left > 0 && !st.valid ==> ReadFrom(articles, st, current, left) == Outcome([], st, LayoutInvalid)
    ensures left > 0 && st.valid && current >= st.size ==> ReadFrom(articles, st, current, left) == Outcome([], st, Eof)
  {
  }

  /** The first turn of a read. */
  lemma ReadFromStep(articles: Articles, st: State, current: int, left: int)
    requires Checked(st) && st.valid && 0 <= current < st.size && 0 < left
    ensures Tiles(st.spans, 0, st.size)
    ensures Covering(st.spans, current) < |st.spans|
    ensures var k := Covering(st.spans, current); var span, to := st.spans[k], RequestEnd(st, k, current, left);
      && span.start <= current < to <= span.end && to <= current + left
      && (Changes(TurnAt(articles, span, current, to)) ==>
            Loose(articles, span) && Checked(Published(st.spans, k, articles[span.messageId])))
      && ReadFrom(articles, st, current, left)
           == match TurnAt(articles, span, current, to)
              case Failing => Outcome([], st, FetchFailed)
              case Stalling => Outcome([], st, Eof)
              case Cutting => Outcome([], st, ShortFetch)
              case Correcting => ReadFrom(articles, Published(st.spans, k, articles[span.messageId]), current, left)
              case Growing(block) =>
                Behind(block, ReadFrom(articles, Published(st.spans, k, articles[span.messageId]), to, left - |block|))
              case Passing(block) => Behind(block, ReadFrom(articles, st, to, left - |block|))
  {
    CoveringInside(st.spans, 0, st.size, current);
    var k := Covering(st.spans, current);
    TurnFacts(articles, st.spans[k], current, RequestEnd(st, k, current, left));
    if Changes(TurnAt(articles, st.spans[k], current, RequestEnd(st, k, current, left))) {
      LooseStep(articles, st, k);
    }
  }

  /** The table that the copy and the shifting loop build. */
  lemma RealignedIs(spans: seq<SegmentSpan>, k: nat, a: Article, built: seq<SegmentSpan>)
    requires k < |spans| && |built| == |spans|
    requires forall i | 0 <= i < k :: built[i] == spans[i]
    requires built[k] == Corrected(a, spans[k])
    requires forall i | k < i < |spans| :: built[i] == Moved(spans[i], Growth(a, spans[k]))
    ensures built == Realigned(spans, k, a)
  {
    RealignedAt(spans, k, a);
  }

  lemma RealignedIds(spans: seq<SegmentSpan>, k: nat, a: Article)
    requires k < |spans| && DistinctIds(spans)
    ensures DistinctIds(Realigned(spans, k, a))
  {
    RealignedAt(spans, k, a);
    assert forall i | 0 <= i < |spans| :: Realigned(spans, k, a)[i].segmentId == spans[i].segmentId;
  }
}
