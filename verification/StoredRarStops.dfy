/** Where a read of a stored_rar file stops, and what it says there: the end of the file, a fetch that failed, an
    article that gives out, or a layout that no longer is one. */
module StoredRarStops {
  import opened Bytes
  import opened SpanLayout
  import opened StoredRarReader

  /** The index in the article of the byte that the span means at position `p`, counted from where the article
      says it begins, or from where the span takes it to begin. */
  function IndexAt(a: Article, span: SegmentSpan, p: int): int {
    var begins := if a.position.Some? then a.position.value else span.decodedStart;
    span.decodedStart + span.segmentByteStart + (p - span.start) - begins
  }

  /** The article says that it begins further from where the span takes it to begin than the span reaches, and
      further than 64 KiB. */
  predicate TooFar(a: Article, span: SegmentSpan) {
    && a.position.Some?
    && var off := if a.position.value > span.decodedStart then a.position.value - span.decodedStart
                  else span.decodedStart - a.position.value;
       off > 65536 && off > span.end - span.start + span.segmentByteStart
  }

  /** The article of the span can be fetched. */
  predicate Reachable(articles: Articles, span: SegmentSpan) {
    span.messageId in articles && !TooFar(articles[span.messageId], span)
  }

  /** It has the byte meant at position `p`. */
  predicate HasByte(articles: Articles, span: SegmentSpan, p: int)
    requires span.messageId in articles
  {
    0 <= IndexAt(articles[span.messageId], span, p) < |articles[span.messageId].bytes|
  }

  /** Span `k` of the layout stands at position `p`. */
  predicate StandsAt(st: State, k: nat, p: int) {
    k < |st.spans| && st.spans[k].start <= p < st.spans[k].end
  }

  /** Why a read that got to position `p`, and not to its end, says what it says. */
  ghost predicate Explains(articles: Articles, st: State, p: int, ending: Ending) {
    match ending
    case Filled => false
    case OutsideFile => false
    case LayoutInvalid => !st.valid
    case Eof =>
      st.valid && (p >= st.size ||
                   exists k: nat :: StandsAt(st, k, p) && Reachable(articles, st.spans[k])
                                    && !HasByte(articles, st.spans[k], p) && Trusting(articles, st.spans[k]))
    case FetchFailed =>
      st.valid && p < st.size && exists k: nat :: StandsAt(st, k, p) && !Reachable(articles, st.spans[k])
    case ShortFetch =>
      st.valid && p < st.size &&
      exists k: nat :: StandsAt(st, k, p) && Reachable(articles, st.spans[k])
                       && HasByte(articles, st.spans[k], p) && Trusting(articles, st.spans[k])
  }

  /** The article does not say where it begins, so that the reader cannot correct the span by it; unless the span
      begins before its article. */
  predicate Trusting(articles: Articles, span: SegmentSpan)
    requires span.messageId in articles
  {
    articles[span.messageId].position.None? || span.segmentByteStart < 0
  }

  lemma WildIsTooFar(a: Article, span: SegmentSpan)
    ensures Wild(a, span) <==> TooFar(a, span)
  {
  }

  /** What a turn that ends the read says of its span. */
  lemma TurnExplains(articles: Articles, span: SegmentSpan, from: int, to: int)
    requires span.start <= from < to <= span.end
    ensures var turn := TurnAt(articles, span, from, to);
      && (turn.Failing? <==> !Reachable(articles, span))
      && (turn.Stalling? ==> !HasByte(articles, span, from) && Trusting(articles, span))
      && (turn.Cutting? ==> HasByte(articles, span, from) && Trusting(articles, span))
  {
    if span.messageId in articles {
      WildIsTooFar(articles[span.messageId], span);
    }
  }

  /** A read gets all its bytes and says so, or stops at the first position it has no byte for and says why: the
      layout is gone, the file ends there, the article there cannot be fetched, it has nothing at that position,
      or it has too little; and in the last two cases it does not say where it begins. */
  lemma {:induction false} StoppedExactly(articles: Articles, st: State, current: int, left: nat)
    requires Checked(st) && 0 <= current
    ensures var out := ReadFrom(articles, st, current, left);
      && |out.written| <= left && (out.ending.Filled? <==> |out.written| == left)
      && (|out.written| < left ==> Explains(articles, out.state, current + |out.written|, out.ending))
    decreases LooseCount(articles, st.spans), left
  {
    hide LooseCount, TurnAt, Covering, Tiles, Loose, Published, ReadFrom, Reachable, HasByte, Trusting;
    if left <= 0 || !st.valid || current >= st.size {
      ReadFromEnds(articles, st, current, left);
    } else {
      ReadFromStep(articles, st, current, left);
      var k := Covering(st.spans, current);
      var span, to := st.spans[k], RequestEnd(st, k, current, left);
      var turn := TurnAt(articles, span, current, to);
      TurnFacts(articles, span, current, to);
      TurnExplains(articles, span, current, to);
      assert StandsAt(st, k, current);
      match turn
      case Correcting =>
        LooseStep(articles, st, k);
        StoppedExactly(articles, Published(st.spans, k, articles[span.messageId]), current, left);
      case Growing(block) =>
        LooseStep(articles, st, k);
        StoppedExactly(articles, Published(st.spans, k, articles[span.messageId]), to, left - |block|);
      case Passing(block) =>
        StoppedExactly(articles, st, to, left - |block|);
      case _ =>
    }
  }

  /** The same for a whole call, which asks for no more than the file had when it began: a call that gets as far as
      that but not as far as it wanted says that the file ends. */
  lemma CallStops(articles: Articles, st: State, want: nat, offset: int)
    requires Checked(st)
    ensures var out, reach := ReadSpec(articles, st, want, offset), Min(want, st.size - offset);
      if !st.valid then out == Outcome([], st, LayoutInvalid)
      else if offset < 0 then out == Outcome([], st, OutsideFile)
      else if offset >= st.size then out == Outcome([], st, Eof)
      else
        && |out.written| <= reach
        && (|out.written| == reach ==> out.ending == if reach < want then Eof else Filled)
        && (|out.written| < reach ==> Explains(articles, out.state, offset + |out.written|, out.ending))
  {
    hide ReadFrom, Explains;
    if st.valid && 0 <= offset < st.size {
      StoppedExactly(articles, st, offset, Min(want, st.size - offset));
    }
  }
}
