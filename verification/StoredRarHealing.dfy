/** What reads of a stored_rar file return, and when they change its span table. */
module StoredRarHealing {
  import opened Bytes
  import opened SpanLayout
  import opened StoredRarReader

  // ----- When a read leaves the table alone ------------------------------------------------------------------

  /** The part of span `k` that a read of [from, to) wants. */
  function ShareStart(spans: seq<SegmentSpan>, k: nat, from: int): int
    requires k < |spans|
  {
    Max(from, spans[k].start)
  }

  function ShareEnd(spans: seq<SegmentSpan>, k: nat, to: int): int
    requires k < |spans|
  {
    Min(to, spans[k].end)
  }

  predicate Touched(spans: seq<SegmentSpan>, from: int, to: int, k: nat) {
    k < |spans| && ShareStart(spans, k, from) < ShareEnd(spans, k, to)
  }

  /** What fetching its share of span `k` leads to. */
  function TurnOf(articles: Articles, spans: seq<SegmentSpan>, from: int, to: int, k: nat): Turn
    requires k < |spans|
  {
    TurnAt(articles, spans[k], ShareStart(spans, k, from), ShareEnd(spans, k, to))
  }

  /** No fetch of a share calls for a correction, unless the read ends at an earlier span. */
  ghost predicate LeftAlone(articles: Articles, spans: seq<SegmentSpan>, from: int, to: int) {
    forall k: nat | Touched(spans, from, to, k) && Changes(TurnOf(articles, spans, from, to, k)) ::
      exists j: nat :: j < k && Touched(spans, from, to, j) && !TurnOf(articles, spans, from, to, j).Passing?
  }

  /** The first share of a read, and the others. */
  lemma LeftAloneStep(articles: Articles, spans: seq<SegmentSpan>, size: int, from: int, to: int)
    requires Tiles(spans, 0, size) && 0 <= from < to <= size
    ensures var k := Covering(spans, from);
      && k < |spans| && Touched(spans, from, to, k)
      && ShareStart(spans, k, from) == from
      && (LeftAlone(articles, spans, from, to) <==>
            !Changes(TurnOf(articles, spans, from, to, k)) &&
            (TurnOf(articles, spans, from, to, k).Passing? ==> LeftAlone(articles, spans, ShareEnd(spans, k, to), to)))
  {
    hide Tiles, TurnAt, Covering;
    CoveringInside(spans, 0, size, from);
    var k := Covering(spans, from);
    var next := ShareEnd(spans, k, to);
    forall m: nat | m < |spans| && m != k
      ensures Touched(spans, from, to, m) <==> Touched(spans, next, to, m)
      ensures Touched(spans, from, to, m) ==>
          m > k && TurnOf(articles, spans, from, to, m) == TurnOf(articles, spans, next, to, m)
    {
      TilesAt(spans, 0, size, if m < k then m else k);
    }
    assert !Touched(spans, next, to, k);
    FirstDecides(articles, spans, from, next, to, k);
  }

  lemma FirstDecides(articles: Articles, spans: seq<SegmentSpan>, from: int, next: int, to: int, k: nat)
    requires Touched(spans, from, to, k) && !Touched(spans, next, to, k)
    requires forall m: nat | m < |spans| && m != k ::
      (Touched(spans, from, to, m) <==> Touched(spans, next, to, m)) &&
      (Touched(spans, from, to, m) ==>
         m > k && TurnOf(articles, spans, from, to, m) == TurnOf(articles, spans, next, to, m))
    ensures LeftAlone(articles, spans, from, to) <==>
              !Changes(TurnOf(articles, spans, from, to, k)) &&
              (TurnOf(articles, spans, from, to, k).Passing? ==> LeftAlone(articles, spans, next, to))
  {
    hide TurnOf, Changes;
  }

  /** A read either leaves the state alone or leaves fewer wrong spans in it. */
  lemma {:induction false} StateOrFewer(articles: Articles, st: State, current: int, left: int)
    requires Checked(st) && 0 <= current
    ensures var after := ReadFrom(articles, st, current, left).state;
      Checked(after) && (after == st || LooseCount(articles, after.spans) < LooseCount(articles, st.spans))
    decreases LooseCount(articles, st.spans), left
  {
    hide LooseCount, TurnAt, Published, Covering, Accepted, Tiles;
    if left <= 0 || !st.valid || current >= st.size {
      ReadFromEnds(articles, st, current, left);
    } else {
      ReadFromStep(articles, st, current, left);
      var k := Covering(st.spans, current);
      var span, to := st.spans[k], RequestEnd(st, k, current, left);
      var turn := TurnAt(articles, span, current, to);
      TurnFacts(articles, span, current, to);
      if Changes(turn) {
        LooseStep(articles, st, k);
        var next := Published(st.spans, k, articles[span.messageId]);
        var taken := if turn.Growing? then turn.block else [];
        StateOrFewer(articles, next, current + |taken|, left - |taken|);
      } else if turn.Passing? {
        StateOrFewer(articles, st, to, left - |turn.block|);
      }
    }
  }

  /** A read leaves the table alone if and only if no share it gets to calls for a correction. */
  lemma {:induction false} LeftAloneExactly(articles: Articles, st: State, current: int, left: int)
    requires Checked(st) && st.valid && 0 <= current && 0 <= left && current + left <= st.size
    ensures ReadFrom(articles, st, current, left).state == st <==>
        LeftAlone(articles, st.spans, current, current + left)
    decreases left
  {
    hide LooseCount, TurnAt, Published, Covering, Accepted, Tiles, LeftAlone;
    if left == 0 {
      ReadFromEnds(articles, st, current, left);
      NothingTouched(articles, st.spans, current);
    } else {
      ReadFromStep(articles, st, current, left);
      LeftAloneStep(articles, st.spans, st.size, current, current + left);
      var k := Covering(st.spans, current);
      var span, to := st.spans[k], RequestEnd(st, k, current, left);
      var turn := TurnAt(articles, span, current, to);
      TurnFacts(articles, span, current, to);
      if Changes(turn) {
        LooseStep(articles, st, k);
        var next := Published(st.spans, k, articles[span.messageId]);
        var taken := if turn.Growing? then turn.block else [];
        StateOrFewer(articles, next, current + |taken|, left - |taken|);
      } else if turn.Passing? {
        LeftAloneExactly(articles, st, to, left - |turn.block|);
      }
    }
  }

  lemma NothingTouched(articles: Articles, spans: seq<SegmentSpan>, at: int)
    ensures LeftAlone(articles, spans, at, at)
  {
  }

  // ----- What a read keeps -------------------------------------------------------------------------------------

  lemma {:induction false} CoveringBefore(spans: seq<SegmentSpan>, p: int)
    ensures Covering(spans, p) <= |spans|
    ensures forall j | 0 <= j < Covering(spans, p) :: spans[j].end <= p
  {
    if spans != [] && spans[0].end <= p {
      CoveringBefore(spans[1..], p);
    }
  }

  lemma {:induction false} CoveringAtLeast(spans: seq<SegmentSpan>, p: int, k: nat)
    requires k <= |spans| && forall j | 0 <= j < k :: spans[j].end <= p
    ensures Covering(spans, p) >= k
  {
    if k > 0 {
      CoveringAtLeast(spans[1..], p, k - 1);
    }
  }

  /** After a correction of span `k` nothing before it covers a later position, and it covers its own. */
  lemma CoveringRealigned(spans: seq<SegmentSpan>, k: nat, a: Article, p: int)
    requires k < |spans| && forall j | 0 <= j < k :: spans[j].end <= p
    ensures |Realigned(spans, k, a)| == |spans| && Covering(Realigned(spans, k, a), p) >= k
    ensures p < Corrected(a, spans[k]).end ==> Covering(Realigned(spans, k, a), p) == k
    ensures forall j | 0 <= j < k :: Realigned(spans, k, a)[j] == spans[j]
    ensures Realigned(spans, k, a)[k] == Corrected(a, spans[k])
  {
    hide Covering, Realigned;
    RealignedAt(spans, k, a);
    CoveringAtLeast(Realigned(spans, k, a), p, k);
    CoveringBefore(Realigned(spans, k, a), p);
  }

  /** The spans before span `c` are the same, and span `c` if it was right. */
  ghost predicate Kept(articles: Articles, before: seq<SegmentSpan>, after: seq<SegmentSpan>, c: nat) {
    && |after| == |before| && c <= |before|
    && (forall j | 0 <= j < c :: after[j] == before[j])
    && (c < |before| && !Loose(articles, before[c]) ==> after[c] == before[c])
  }

  /** Keeping more keeps less. */
  lemma KeptMore(articles: Articles, before: seq<SegmentSpan>, after: seq<SegmentSpan>, c: nat, d: nat)
    requires c <= d && Kept(articles, before, after, d)
    ensures Kept(articles, before, after, c)
  {
    hide Loose;
  }

  /** A correction of a wrong span `c`, and then whatever keeps the spans before it. */
  lemma KeptCorrecting(articles: Articles, before: seq<SegmentSpan>, after: seq<SegmentSpan>, c: nat, d: nat,
                       a: Article)
    requires c < |before| && Loose(articles, before[c]) && c <= d && Kept(articles, Realigned(before, c, a), after, d)
    ensures Kept(articles, before, after, c)
  {
    hide Loose, Realigned;
    RealignedAt(before, c, a);
  }

  /** A read changes no span that ends before it begins, and not the one it begins in if that is right. */
  lemma {:induction false} SpansKept(articles: Articles, st: State, current: int, left: int)
    requires Checked(st) && 0 <= current
    ensures Kept(articles, st.spans, ReadFrom(articles, st, current, left).state.spans, Covering(st.spans, current))
    decreases LooseCount(articles, st.spans), left
  {
    hide LooseCount, TurnAt, Realigned, Covering, Accepted, Tiles, Loose, Corrected, Published;
    CoveringBefore(st.spans, current);
    if left <= 0 || !st.valid || current >= st.size {
      ReadFromEnds(articles, st, current, left);
    } else {
      hide Kept;
      ReadFromStep(articles, st, current, left);
      var k := Covering(st.spans, current);
      var span, to := st.spans[k], RequestEnd(st, k, current, left);
      var turn, after := TurnAt(articles, span, current, to), ReadFrom(articles, st, current, left).state.spans;
      TurnFacts(articles, span, current, to);
      if Changes(turn) {
        LooseStep(articles, st, k);
        var a := articles[span.messageId];
        var next := Published(st.spans, k, a);
        var taken := if turn.Growing? then turn.block else [];
        PublishedIs(st.spans, k, a);
        CoveringRealigned(st.spans, k, a, current + |taken|);
        SpansKept(articles, next, current + |taken|, left - |taken|);
        KeptCorrecting(articles, st.spans, after, k, Covering(next.spans, current + |taken|), a);
      } else if turn.Passing? {
        CoveringAtLeast(st.spans, to, k);
        SpansKept(articles, st, to, left - |turn.block|);
        KeptMore(articles, st.spans, after, k, Covering(st.spans, to));
      } else {
        KeptSame(articles, st.spans, k);
      }
    }
  }

  lemma KeptSame(articles: Articles, spans: seq<SegmentSpan>, c: nat)
    requires c <= |spans|
    ensures Kept(articles, spans, spans, c)
  {
  }

  // ----- Which bytes a read returns ---------------------------------------------------------------------------

  /** Position `p` of the file is byte `b`: the table sends it to a place of an article where `b` stands. */
  ghost predicate Served(articles: Articles, spans: seq<SegmentSpan>, p: int, b: byte) {
    exists k: nat | k < |spans| :: ServedBy(articles, spans[k], p, b)
  }

  predicate ServedBy(articles: Articles, span: SegmentSpan, p: int, b: byte) {
    && span.start <= p < span.end && span.messageId in articles
    && var a := articles[span.messageId]; 0 <= Place(a, span, p) < |a.bytes| && a.bytes[Place(a, span, p)] == b
  }

  /** Every span knows where its article begins. */
  ghost predicate Placed(articles: Articles, spans: seq<SegmentSpan>) {
    forall s | s in spans && s.messageId in articles :: Drift(articles[s.messageId], s) == 0
  }

  /** The bytes of a turn are those the span stands for, as long as its place in the article is kept. */
  lemma BlockServed(articles: Articles, span: SegmentSpan, kept: SegmentSpan, from: int, to: int)
    requires span.start <= from < to <= kept.end
    requires TurnAt(articles, span, from, to).Passing? || TurnAt(articles, span, from, to).Growing?
    requires kept.messageId == span.messageId && kept.start == span.start
        && kept.segmentByteStart == span.segmentByteStart
    requires span.messageId in articles ==>
        Drift(articles[span.messageId], kept) == Drift(articles[span.messageId], span)
    ensures var block := TurnAt(articles, span, from, to).block;
      |block| == to - from && forall i | 0 <= i < |block| :: ServedBy(articles, kept, from + i, block[i])
  {
  }

  lemma PlacedRealigned(articles: Articles, spans: seq<SegmentSpan>, k: nat)
    requires k < |spans| && spans[k].messageId in articles && Placed(articles, spans)
    ensures Placed(articles, Realigned(spans, k, articles[spans[k].messageId]))
  {
    var a := articles[spans[k].messageId];
    var after := Realigned(spans, k, a);
    RealignedAt(spans, k, a);
    forall s | s in after && s.messageId in articles ensures Drift(articles[s.messageId], s) == 0 {
      var i :| 0 <= i < |after| && after[i] == s;
      assert spans[i] in spans;
    }
  }

  ghost predicate AllServed(articles: Articles, spans: seq<SegmentSpan>, from: int, bytes: seq<byte>) {
    forall i | 0 <= i < |bytes| :: Served(articles, spans, from + i, bytes[i])
  }

  lemma ServedAfter(articles: Articles, spans: seq<SegmentSpan>, from: int, a: seq<byte>, b: seq<byte>)
    requires AllServed(articles, spans, from, a) && AllServed(articles, spans, from + |a|, b)
    ensures AllServed(articles, spans, from, a + b)
  {
    hide Served;
    forall i | 0 <= i < |a + b| ensures Served(articles, spans, from + i, (a + b)[i]) {
      if i >= |a| {
        assert (a + b)[i] == b[i - |a|];
      }
    }
  }

  lemma BySpan(articles: Articles, spans: seq<SegmentSpan>, k: nat, from: int, bytes: seq<byte>)
    requires k < |spans| && forall i | 0 <= i < |bytes| :: ServedBy(articles, spans[k], from + i, bytes[i])
    ensures AllServed(articles, spans, from, bytes)
  {
    hide ServedBy;
  }

  /** The bytes of an untroubled turn stand where the table says, also after all that the rest of the read
      changes. */
  lemma PassServed(articles: Articles, st: State, current: int, left: int)
    requires Checked(st) && st.valid && 0 <= current < st.size && 0 < left
    requires var k := Covering(st.spans, current);
      k < |st.spans| && TurnAt(articles, st.spans[k], current, RequestEnd(st, k, current, left)).Passing?
    ensures var k := Covering(st.spans, current);
      var block := TurnAt(articles, st.spans[k], current, RequestEnd(st, k, current, left)).block;
      AllServed(articles, ReadFrom(articles, st, current, left).state.spans, current, block)
  {
    hide LooseCount, TurnAt, Realigned, Covering, Accepted, Tiles, Loose, Corrected, ServedBy, Drift, AllServed;
    ReadFromStep(articles, st, current, left);
    var k := Covering(st.spans, current);
    var span, to := st.spans[k], RequestEnd(st, k, current, left);
    var block, after := TurnAt(articles, span, current, to).block, ReadFrom(articles, st, current, left).state;
    TurnFacts(articles, span, current, to);
    if left > |block| {
      TilesAt(st.spans, 0, st.size, k);
      CoveringBefore(st.spans, current);
      CoveringAtLeast(st.spans, to, k + 1);
      SpansKept(articles, st, to, left - |block|);
    } else {
      ReadFromEnds(articles, st, to, left - |block|);
    }
    BlockServed(articles, span, after.spans[k], current, to);
    BySpan(articles, after.spans, k, current, block);
  }

  /** So do those of a turn that finds more behind its span, if the span's place was right. */
  lemma GrowthServed(articles: Articles, st: State, current: int, left: int)
    requires Checked(st) && st.valid && 0 <= current < st.size && 0 < left && Placed(articles, st.spans)
    requires var k := Covering(st.spans, current);
      k < |st.spans| && TurnAt(articles, st.spans[k], current, RequestEnd(st, k, current, left)).Growing?
    ensures var k := Covering(st.spans, current);
      var block := TurnAt(articles, st.spans[k], current, RequestEnd(st, k, current, left)).block;
      AllServed(articles, ReadFrom(articles, st, current, left).state.spans, current, block)
  {
    hide LooseCount, TurnAt, Realigned, Covering, Accepted, Tiles, Loose, Corrected, ServedBy, Drift, AllServed;
    ReadFromStep(articles, st, current, left);
    var k := Covering(st.spans, current);
    var span, to := st.spans[k], RequestEnd(st, k, current, left);
    var block, after := TurnAt(articles, span, current, to).block, ReadFrom(articles, st, current, left).state;
    var a := articles[span.messageId];
    TurnFacts(articles, span, current, to);
    CoveringBefore(st.spans, current);
    PublishedIs(st.spans, k, a);
    CorrectedSame(a, span);
    GrownFits(articles, span, to);
    CoveringRealigned(st.spans, k, a, to);
    SpansKept(articles, Published(st.spans, k, a), to, left - |block|);
    assert span in st.spans;
    BlockServed(articles, span, after.spans[k], current, to);
    BySpan(articles, after.spans, k, current, block);
  }

  lemma GrownFits(articles: Articles, span: SegmentSpan, to: int)
    requires span.messageId in articles && to == span.end
    requires Supply(articles[span.messageId], span) > Length(span)
    ensures var grown := Corrected(articles[span.messageId], span);
      !Loose(articles, grown) && to < grown.end && Drift(articles[span.messageId], grown) == 0
  {
    CorrectedFits(articles[span.messageId], span);
  }

  /** Every byte a read returns is what the table the read leaves behind says of its position: always when
      the read changes nothing, and when it corrects spans, if they know where their articles begin. */
  lemma {:induction false} ReadServes(articles: Articles, st: State, current: int, left: int)
    requires Checked(st) && 0 <= current
    requires Placed(articles, st.spans) || ReadFrom(articles, st, current, left).state == st
    ensures var out := ReadFrom(articles, st, current, left);
      AllServed(articles, out.state.spans, current, out.written)
    decreases LooseCount(articles, st.spans), left
  {
    hide LooseCount, TurnAt, Realigned, Covering, Accepted, Tiles, Loose, Served, Placed;
    if left <= 0 || !st.valid || current >= st.size {
      ReadFromEnds(articles, st, current, left);
    } else {
      hide AllServed;
      ReadFromStep(articles, st, current, left);
      var k := Covering(st.spans, current);
      var span, to := st.spans[k], RequestEnd(st, k, current, left);
      var turn, out := TurnAt(articles, span, current, to), ReadFrom(articles, st, current, left);
      TurnFacts(articles, span, current, to);
      match turn
      case Correcting =>
        CorrectionStays(articles, st, k, current, left);
        ReadServes(articles, Published(st.spans, k, articles[span.messageId]), current, left);
      case Growing(block) =>
        CorrectionStays(articles, st, k, to, left - |block|);
        var next := Published(st.spans, k, articles[span.messageId]);
        ReadServes(articles, next, to, left - |block|);
        GrowthServed(articles, st, current, left);
        ServedAfter(articles, out.state.spans, current, block, ReadFrom(articles, next, to, left - |block|).written);
      case Passing(block) =>
        ReadServes(articles, st, to, left - |block|);
        PassServed(articles, st, current, left);
        ServedAfter(articles, out.state.spans, current, block, ReadFrom(articles, st, to, left - |block|).written);
      case _ =>
        NoBytesServed(articles, out.state.spans, current);
    }
  }

  lemma NoBytesServed(articles: Articles, spans: seq<SegmentSpan>, from: int)
    ensures AllServed(articles, spans, from, [])
  {
  }

  /** A correction is never taken back, and keeps spans in their places. */
  lemma CorrectionStays(articles: Articles, st: State, k: nat, current: int, left: int)
    requires Checked(st) && st.valid && st.size > 0 && k < |st.spans| && Loose(articles, st.spans[k]) && 0 <= current
    ensures var next := Published(st.spans, k, articles[st.spans[k].messageId]);
      && Checked(next) && LooseCount(articles, next.spans) < LooseCount(articles, st.spans)
      && ReadFrom(articles, next, current, left).state != st
      && (Placed(articles, st.spans) ==> Placed(articles, next.spans))
  {
    hide LooseCount, Realigned, Tiles, Fits, Placed;
    var a := articles[st.spans[k].messageId];
    LooseStep(articles, st, k);
    StateOrFewer(articles, Published(st.spans, k, a), current, left);
    PublishedIs(st.spans, k, a);
    if Placed(articles, st.spans) {
      PlacedRealigned(articles, st.spans, k);
    }
  }

  // ----- Reading again ---------------------------------------------------------------------------------------

  /** Spans begin inside their articles: what the span builder gives. */
  ghost predicate SkipsForward(spans: seq<SegmentSpan>) {
    forall s | s in spans :: s.segmentByteStart >= 0
  }

  lemma SkipsRealigned(spans: seq<SegmentSpan>, k: nat, a: Article)
    requires k < |spans| && SkipsForward(spans)
    ensures SkipsForward(Realigned(spans, k, a))
  {
    var after := Realigned(spans, k, a);
    RealignedAt(spans, k, a);
    forall s | s in after ensures s.segmentByteStart >= 0 {
      var i :| 0 <= i < |after| && after[i] == s;
      assert spans[i] in spans;
    }
  }

  /** A span that is what its article says gives every part of itself without trouble. */
  lemma FitPasses(articles: Articles, span: SegmentSpan, from: int, to: int)
    requires span.messageId in articles && articles[span.messageId].position.Some?
        && Fits(articles[span.messageId], span)
    requires span.segmentByteStart >= 0 && span.start <= from < to <= span.end
    ensures TurnAt(articles, span, from, to).Passing?
  {
  }

  /** Every share of [from, to) passes. */
  ghost predicate AllPass(articles: Articles, spans: seq<SegmentSpan>, from: int, to: int) {
    forall k: nat | Touched(spans, from, to, k) :: TurnOf(articles, spans, from, to, k).Passing?
  }

  /** One share passes, and so do those of the rest. */
  lemma PassFirst(articles: Articles, spans: seq<SegmentSpan>, size: int, from: int, next: int, to: int, k: nat)
    requires Tiles(spans, 0, size) && k < |spans| && spans[k].start <= from < next <= to
    requires next <= spans[k].end && (TurnAt(articles, spans[k], from, Min(to, spans[k].end)).Passing?)
    requires AllPass(articles, spans, next, to)
    ensures AllPass(articles, spans, from, to)
  {
    hide Tiles, TurnAt;
    forall m: nat | Touched(spans, from, to, m) ensures TurnOf(articles, spans, from, to, m).Passing? {
      TilesAt(spans, 0, size, if m < k then m else k);
      if m > k {
        assert Touched(spans, next, to, m);
        assert TurnOf(articles, spans, from, to, m) == TurnOf(articles, spans, next, to, m);
      }
    }
  }

  /** A read that got all its bytes leaves a table in which every share of it passes. */
  lemma {:induction false} FilledPasses(articles: Articles, st: State, current: int, left: int)
    requires Checked(st) && st.valid && 0 <= current && 0 < left && SkipsForward(st.spans)
    requires ReadFrom(articles, st, current, left).ending.Filled?
    ensures var after := ReadFrom(articles, st, current, left).state;
      && Checked(after) && after.valid && current + left <= after.size
      && AllPass(articles, after.spans, current, current + left)
    decreases LooseCount(articles, st.spans), left, 1
  {
    hide LooseCount, TurnAt, Realigned, Covering, Tiles, Loose, AllPass, SkipsForward, Published, Kept;
    ReadFromEnds(articles, st, current, left);
    StateOrFewer(articles, st, current, left);
    ReadFromStep(articles, st, current, left);
    var k := Covering(st.spans, current);
    var span, to := st.spans[k], RequestEnd(st, k, current, left);
    var turn, after := TurnAt(articles, span, current, to), ReadFrom(articles, st, current, left).state;
    TurnFacts(articles, span, current, to);
    TilesAt(st.spans, 0, st.size, k);
    match turn
    case Correcting =>
      CorrectionStays(articles, st, k, current, left);
      PublishedIs(st.spans, k, articles[span.messageId]);
      SkipsRealigned(st.spans, k, articles[span.messageId]);
      ReadFromEnds(articles, Published(st.spans, k, articles[span.messageId]), current, left);
      FilledPasses(articles, Published(st.spans, k, articles[span.messageId]), current, left);
    case Growing(block) =>
      GrowthPasses(articles, st, k, current, left);
    case Passing(block) =>
      ReadFromEnds(articles, st, to, left - |block|);
      if left > |block| {
        FilledPasses(articles, st, to, left - |block|);
        PassKept(articles, st, k, to, left - |block|);
      } else {
        NoShares(articles, st.spans, to);
      }
      PassFirst(articles, after.spans, after.size, current, to, current + left, k);
    case _ =>
  }

  /** The state behind a span found to be longer than assumed. */
  lemma GrowthFacts(articles: Articles, st: State, k: nat, current: int, to: int, left: int)
    requires Checked(st) && Tiles(st.spans, 0, st.size) && st.size > 0 && st.valid && SkipsForward(st.spans)
    requires k == Covering(st.spans, current) && k < |st.spans| && st.spans[k].start <= current < to == st.spans[k].end
    requires st.spans[k].messageId in articles && 0 <= current
    requires Supply(articles[st.spans[k].messageId], st.spans[k]) > Length(st.spans[k])
    ensures var span := st.spans[k]; var a := articles[span.messageId]; var next := Published(st.spans, k, a);
      && Checked(next) && LooseCount(articles, next.spans) < LooseCount(articles, st.spans)
      && next.valid && 0 < to <= next.size && SkipsForward(next.spans)
      && var after := ReadFrom(articles, next, to, left).state.spans;
         && k < |after| && after[k] == Corrected(a, span)
         && to < after[k].end && after[k].start == span.start
         && forall from, end | span.start <= from < end <= after[k].end ::
             TurnAt(articles, after[k], from, end).Passing?
  {
    hide LooseCount, Realigned, Covering, Tiles, Loose, SkipsForward, Published, TurnAt, ReadFrom, Corrected, Fits;
    var span := st.spans[k];
    var a := articles[span.messageId];
    var next := Published(st.spans, k, a);
    GrownIs(articles, span, to);
    LooseGrown(articles, span);
    LooseStep(articles, st, k);
    PublishedIs(st.spans, k, a);
    PublishedExactly(st.spans, st.size, k, a);
    SkipsRealigned(st.spans, k, a);
    CorrectedSame(a, span);
    CoveringBefore(st.spans, current);
    CoveringRealigned(st.spans, k, a, to);
    SpansKept(articles, next, to, left);
    GrownInside(next, k, st, a, to);
    SkipOf(st.spans, k);
    var kept := ReadFrom(articles, next, to, left).state.spans[k];
    forall from, end | span.start <= from < end <= kept.end ensures TurnAt(articles, kept, from, end).Passing? {
      FitPasses(articles, kept, from, end);
    }
  }

  lemma LooseGrown(articles: Articles, span: SegmentSpan)
    requires span.messageId in articles && Supply(articles[span.messageId], span) > Length(span)
    ensures Loose(articles, span)
  {
  }

  /** The case of a span found to be longer than assumed. */
  lemma {:induction false} GrowthPasses(articles: Articles, st: State, k: nat, current: int, left: int)
    requires Checked(st) && st.valid && 0 <= current < st.size && 0 < left && SkipsForward(st.spans)
    requires ReadFrom(articles, st, current, left).ending.Filled?
    requires k == Covering(st.spans, current) && k < |st.spans|
    requires TurnAt(articles, st.spans[k], current, RequestEnd(st, k, current, left)).Growing?
    ensures var after := ReadFrom(articles, st, current, left).state;
      && after.valid && current + left <= after.size
      && AllPass(articles, after.spans, current, current + left)
    decreases LooseCount(articles, st.spans), left, 0
  {
    hide LooseCount, TurnAt, Covering, Tiles, Loose, AllPass, SkipsForward, Published, Corrected, Supply;
    var span, to := st.spans[k], RequestEnd(st, k, current, left);
    ReadFromStep(articles, st, current, left);
    TurnFacts(articles, span, current, to);
    var block := TurnAt(articles, span, current, to).block;
    var next, after := Published(st.spans, k, articles[span.messageId]), ReadFrom(articles, st, current, left).state;
    GrowthFacts(articles, st, k, current, to, left - |block|);
    StateOrFewer(articles, next, to, left - |block|);
    ReadFromEnds(articles, next, to, left - |block|);
    if left > |block| {
      FilledPasses(articles, next, to, left - |block|);
    } else {
      NoShares(articles, next.spans, to);
    }
    PassFirst(articles, after.spans, after.size, current, to, current + left, k);
  }

  lemma SkipOf(spans: seq<SegmentSpan>, k: nat)
    requires SkipsForward(spans) && k < |spans|
    ensures spans[k].segmentByteStart >= 0
  {
  }

  /** A span that grew is right, and its article said where it is. */
  lemma GrownIs(articles: Articles, span: SegmentSpan, to: int)
    requires span.messageId in articles && to == span.end && span.start < span.end
    requires Supply(articles[span.messageId], span) > Length(span)
    ensures var grown := Corrected(articles[span.messageId], span);
      && !Loose(articles, grown) && to < grown.end && articles[span.messageId].position.Some?
      && Fits(articles[span.messageId], grown)
  {
    CorrectedFits(articles[span.messageId], span);
  }

  lemma GrownInside(next: State, k: nat, st: State, a: Article, to: int)
    requires k < |st.spans| && next == Published(st.spans, k, a) && Tiles(st.spans, 0, st.size)
    requires Checked(next) && next.valid && to == st.spans[k].end < Corrected(a, st.spans[k]).end
    ensures to <= next.size && next.size > 0
  {
    hide Tiles, Realigned;
    PublishedExactly(st.spans, st.size, k, a);
    TilesAt(st.spans, 0, st.size, k);
  }

  lemma NoShares(articles: Articles, spans: seq<SegmentSpan>, at: int)
    ensures AllPass(articles, spans, at, at)
  {
  }

  /** What is read behind span `k` does not change it. */
  lemma PassKept(articles: Articles, st: State, k: nat, to: int, left: int)
    requires Checked(st) && st.valid && k < |st.spans| && Tiles(st.spans, 0, st.size) && 0 <= st.spans[k].start < to
        && st.spans[k].end <= to
    ensures var after := ReadFrom(articles, st, to, left).state.spans;
      k < |after| && after[k] == st.spans[k]
  {
    hide Loose, ReadFrom, Covering, Tiles;
    forall j | 0 <= j < k + 1 ensures st.spans[j].end <= to {
      TilesAt(st.spans, 0, st.size, j);
    }
    CoveringAtLeast(st.spans, to, k + 1);
    SpansKept(articles, st, to, left);
  }

  lemma PassingIsLeftAlone(articles: Articles, spans: seq<SegmentSpan>, from: int, to: int)
    requires AllPass(articles, spans, from, to)
    ensures LeftAlone(articles, spans, from, to)
  {
    hide TurnOf, Touched;
  }

  /** Reads settle: after a read that got all its bytes, the same read leaves the table alone. */
  lemma SecondReadLeavesAlone(articles: Articles, st: State, want: nat, offset: int)
    requires Checked(st) && SkipsForward(st.spans) && ReadSpec(articles, st, want, offset).ending.Filled?
    ensures var after := ReadSpec(articles, st, want, offset).state;
      Checked(after) && ReadSpec(articles, after, want, offset).state == after
  {
    hide ReadFrom, LooseCount, Tiles, AllPass, SkipsForward, LeftAlone;
    StateOrFewer(articles, st, offset, Min(want, st.size - offset));
    var after := ReadSpec(articles, st, want, offset).state;
    ReadFromEnds(articles, st, offset, want);
    if want > 0 {
      FilledPasses(articles, st, offset, want);
      PassingIsLeftAlone(articles, after.spans, offset, offset + want);
      LeftAloneExactly(articles, after, offset, want);
    } else {
      ReadFromEnds(articles, after, offset, 0);
    }
  }

  // ----- What goes unnoticed ----------------------------------------------------------------------------------

  /** A fetch passes if and only if the article has bytes at all the places the span sends it to and none
      behind it that the span should have had. Where the span is wrong about the article's position, those
      bytes are not the right ones, and nothing notices. */
  lemma PassesExactly(articles: Articles, span: SegmentSpan, from: int, to: int)
    requires span.messageId in articles && span.start <= from < to <= span.end
    ensures var a := articles[span.messageId]; var place := Place(a, span, from);
      && (TurnAt(articles, span, from, to).Passing? <==>
            && !Wild(a, span) && 0 <= place && place + (to - from) <= |a.bytes|
            && !(to == span.end && !span.entryTruncated
                 && MeasuredSize(a, span) - span.segmentByteStart > Length(span)))
      && (TurnAt(articles, span, from, to).Passing? ==>
            TurnAt(articles, span, from, to).block == a.bytes[place..place + (to - from)])
      && place == span.segmentByteStart + (from - span.start) + Drift(a, span)
  {
  }
}
