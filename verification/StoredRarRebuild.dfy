/** Rebuilding an entry's ranges from the full volume list when the persisted ones fall short:
    `storedRarSourceSize` and `reconstructStoredRarRanges`. */
module StoredRarRebuild {
  import opened SpanLayout
  import opened StoredRar

  /** The decoded size of a volume: its segments when they are known, else the recorded file size. */
  function SourceSize(source: NzbSource): int {
    var n := |source.messageIds|;
    if source.fileSizeBytes > 0 && (n == 0 || source.decodedSegmentSize <= 0) then source.fileSizeBytes
    else if n == 0 || source.decodedSegmentSize <= 0 then 0
    else if n == 1 then
      if source.lastDecodedSize > 0 then source.lastDecodedSize else source.decodedSegmentSize
    else
      var total := (n - 1) * source.decodedSegmentSize;
      if source.lastDecodedSize > 0 then total + source.lastDecodedSize else total + source.decodedSegmentSize
  }

  /** The volume's segments are known, and the last is no larger than the others. */
  predicate HasSegments(source: NzbSource) {
    |source.messageIds| > 0 && source.decodedSegmentSize > 0 && source.lastDecodedSize <= source.decodedSegmentSize
  }

  /** Whenever segments are known, the size is exactly what the span builder can supply. */
  lemma SourceSizeIsTotal(source: NzbSource)
    requires |source.messageIds| > 0 && source.decodedSegmentSize > 0
    ensures SourceSize(source) == DecodedTotal(|source.messageIds|, source.decodedSegmentSize, source.lastDecodedSize)
  {
    SegmentStartIsProduct(source.decodedSegmentSize, |source.messageIds| - 1);
  }

  // ----- The walk --------------------------------------------------------------------------------

  /** The fixed inputs of one walk. `continuation` overrides the start offset of later volumes. */
  datatype Walk = Walk(sources: Sources, volumes: seq<VolumeMeta>, continuation: map<string, int>, startIndex: nat)

  function KeyAt(w: Walk, i: nat): string
    requires i < |w.volumes|
  {
    VolumeKey(w.volumes[i].path)
  }

  /** Where reading starts in volume `i`, given the offset carried into it. */
  function OffsetAt(w: Walk, i: nat, carried: int): int
    requires i < |w.volumes|
  {
    if i > w.startIndex && KeyAt(w, i) in w.continuation && w.continuation[KeyAt(w, i)] >= 0
    then w.continuation[KeyAt(w, i)] else carried
  }

  function Prepend(head: seq<RangeSource>, tail: Option<seq<RangeSource>>): Option<seq<RangeSource>> {
    match tail case None => None case Some(rest) => Some(head + rest)
  }

  lemma PrependNothing(tail: Option<seq<RangeSource>>)
    ensures Prepend([], tail) == tail
  {
    if tail.Some? {
      assert [] + tail.value == tail.value;
    }
  }

  lemma PrependTwice(a: seq<RangeSource>, b: seq<RangeSource>, tail: Option<seq<RangeSource>>)
    ensures Prepend(a, Prepend(b, tail)) == Prepend(a + b, tail)
  {
    if tail.Some? {
      assert a + (b + tail.value) == (a + b) + tail.value;
    }
  }

  /** The ranges for the last `remaining` bytes of the entry, taken from volume `i` on. */
  function WalkFrom(w: Walk, i: nat, carried: int, entryOffset: int, remaining: int): Option<seq<RangeSource>>
    decreases |w.volumes| - i
  {
    if remaining <= 0 then Some([])
    else if i >= |w.volumes| || KeyAt(w, i) !in w.sources then None
    else
      var offset, size := OffsetAt(w, i, carried), SourceSize(w.sources[KeyAt(w, i)]);
      if size <= offset then None
      else
        var length := Min(remaining, size - offset);
        Prepend([RangeSource(w.volumes[i].path, entryOffset, offset, length)],
                WalkFrom(w, i + 1, 0, entryOffset + length, remaining - length))
  }

  /** The first volume with the given path, or the first volume of all. */
  function StartIndex(volumes: seq<VolumeMeta>, path: string): nat {
    var i := FirstMatch(volumes, path);
    if i < |volumes| then i else 0
  }

  function FirstMatch(volumes: seq<VolumeMeta>, path: string): (i: nat)
    ensures i <= |volumes|
    ensures i < |volumes| ==> VolumeKey(volumes[i].path) == VolumeKey(path)
    ensures forall j | 0 <= j < i :: VolumeKey(volumes[j].path) != VolumeKey(path)
  {
    if volumes == [] || VolumeKey(volumes[0].path) == VolumeKey(path) then 0
    else 1 + FirstMatch(volumes[1..], path)
  }

  function Reconstructed(sources: Sources, volumes: seq<VolumeMeta>, startPath: string, startOffset: int,
                         continuation: map<string, int>, entrySize: int): Option<seq<RangeSource>> {
    if |sources| == 0 || volumes == [] || entrySize <= 0 then None
    else
      var start := StartIndex(volumes, startPath);
      WalkFrom(Walk(sources, volumes, continuation, start), start, Max(startOffset, 0), 0, entrySize)
  }

  method ReconstructStoredRarRanges(sources: Sources, volumes: seq<VolumeMeta>, startVolumePath: string,
                                    startArchiveOffset: int, continuationOffsets: map<string, int>, entrySize: int)
    returns (result: Option<seq<RangeSource>>)
    ensures result == Reconstructed(sources, volumes, startVolumePath, startArchiveOffset, continuationOffsets,
                                    entrySize)
  {
    hide SourceSize, VolumeKey, StartIndex;
    if |sources| == 0 || |volumes| == 0 || entrySize <= 0 {
      return None;
    }
    var startIndex := FindStart(volumes, startVolumePath);
    var startOffset := startArchiveOffset;
    if startOffset < 0 {
      startOffset := 0;
    }
    ghost var w := Walk(sources, volumes, continuationOffsets, startIndex);
    var remaining, entryOffset, archiveOffset := entrySize, 0, startOffset;
    var ranges: seq<RangeSource> := [];
    var i := startIndex;
    ghost var whole := WalkFrom(w, startIndex, startOffset, 0, entrySize);
    PrependNothing(whole);
    while i < |volumes| && remaining > 0
      invariant startIndex <= i
      invariant Prepend(ranges, WalkFrom(w, i, archiveOffset, entryOffset, remaining)) == whole
    {
      ghost var here := WalkFrom(w, i, archiveOffset, entryOffset, remaining);
      var key := VolumeKey(volumes[i].path);
      if key !in sources {
        return None;
      }
      if i > startIndex && key in continuationOffsets && continuationOffsets[key] >= 0 {
        archiveOffset := continuationOffsets[key];
      }
      var sourceSize := SourceSize(sources[key]);
      if sourceSize <= archiveOffset {
        return None;
      }
      var length, available := remaining, sourceSize - archiveOffset;
      if length > available {
        length := available;
      }
      var item := RangeSource(volumes[i].path, entryOffset, archiveOffset, length);
      ghost var after := WalkFrom(w, i + 1, 0, entryOffset + length, remaining - length);
      assert here == Prepend([item], after);
      PrependTwice(ranges, [item], after);
      ranges := ranges + [item];
      entryOffset, remaining, archiveOffset := entryOffset + length, remaining - length, 0;
      i := i + 1;
    }
    if remaining > 0 {
      return None;
    }
    assert ranges + [] == ranges;
    result := Some(ranges);
  }

  method FindStart(volumes: seq<VolumeMeta>, path: string) returns (startIndex: nat)
    ensures startIndex == StartIndex(volumes, path)
  {
    for i := 0 to |volumes|
      invariant FirstMatch(volumes, path) == i + FirstMatch(volumes[i..], path)
    {
      assert volumes[i..][1..] == volumes[i + 1..];
      if VolumeKey(volumes[i].path) == VolumeKey(path) {
        return i;
      }
    }
    return 0;
  }

  // ----- What a successful walk gives --------------------------------------------------------------

  /** The range is non-empty and lies inside the size its volume claims. */
  predicate WithinSource(sources: Sources, r: RangeSource) {
    var key := VolumeKey(r.volumePath);
    && key in sources && r.lengthBytes > 0 && r.archiveOffset >= 0
    && r.archiveOffset + r.lengthBytes <= SourceSize(sources[key])
  }

  /** The range the walk takes from volume `i`, and the rest of the walk. */
  lemma WalkStep(w: Walk, i: nat, carried: int, entryOffset: int, remaining: int) returns (r: RangeSource)
    requires carried >= 0 && remaining > 0
    requires WalkFrom(w, i, carried, entryOffset, remaining).Some?
    ensures i < |w.volumes| && r.volumePath == w.volumes[i].path && r.entryOffset == entryOffset
    ensures 0 < r.lengthBytes <= remaining && WithinSource(w.sources, r)
    ensures var rest := WalkFrom(w, i + 1, 0, entryOffset + r.lengthBytes, remaining - r.lengthBytes);
      rest.Some? && WalkFrom(w, i, carried, entryOffset, remaining).value == [r] + rest.value
  {
    hide SourceSize;
    var offset, size := OffsetAt(w, i, carried), SourceSize(w.sources[KeyAt(w, i)]);
    r := RangeSource(w.volumes[i].path, entryOffset, offset, Min(remaining, size - offset));
  }

  /** The ranges lie in the volumes from `i` on, one in each, and inside them. */
  ghost predicate LieIn(w: Walk, i: nat, ranges: seq<RangeSource>) {
    && i + |ranges| <= |w.volumes|
    && forall k | 0 <= k < |ranges| ::
         ranges[k].volumePath == w.volumes[i + k].path && WithinSource(w.sources, ranges[k])
  }

  lemma LieInFront(w: Walk, i: nat, r: RangeSource, rest: seq<RangeSource>)
    requires i < |w.volumes| && r.volumePath == w.volumes[i].path && WithinSource(w.sources, r)
    requires LieIn(w, i + 1, rest)
    ensures LieIn(w, i, [r] + rest)
  {
    hide WithinSource;
    var ranges := [r] + rest;
    forall k | 0 <= k < |ranges|
      ensures ranges[k].volumePath == w.volumes[i + k].path && WithinSource(w.sources, ranges[k])
    {
      if k > 0 {
        assert ranges[k] == rest[k - 1] && w.volumes[i + k] == w.volumes[i + 1 + (k - 1)];
      }
    }
  }

  lemma {:induction false} WalkLayout(w: Walk, i: nat, carried: int, entryOffset: int, remaining: int)
    requires carried >= 0 && remaining >= 0 && i <= |w.volumes|
    requires WalkFrom(w, i, carried, entryOffset, remaining).Some?
    ensures var ranges := WalkFrom(w, i, carried, entryOffset, remaining).value;
      Contiguous(ranges, entryOffset) && TotalLength(ranges) == remaining && LieIn(w, i, ranges)
    decreases |w.volumes| - i
  {
    hide LieIn, WithinSource;
    if remaining > 0 {
      var r := WalkStep(w, i, carried, entryOffset, remaining);
      WalkLayout(w, i + 1, 0, entryOffset + r.lengthBytes, remaining - r.lengthBytes);
      var rest := WalkFrom(w, i + 1, 0, entryOffset + r.lengthBytes, remaining - r.lengthBytes).value;
      LieInFront(w, i, r, rest);
      assert ([r] + rest)[1..] == rest;
    } else {
      NothingLies(w, i);
    }
  }

  lemma NothingLies(w: Walk, i: nat)
    requires i <= |w.volumes|
    ensures LieIn(w, i, [])
  {
  }

  /** A rebuilt layout is contiguous from 0, adds up to exactly the entry size, and every range lies
      inside its volume. */
  lemma ReconstructedLayout(sources: Sources, volumes: seq<VolumeMeta>, startPath: string, startOffset: int,
                            continuation: map<string, int>, entrySize: int)
    requires Reconstructed(sources, volumes, startPath, startOffset, continuation, entrySize).Some?
    ensures var ranges := Reconstructed(sources, volumes, startPath, startOffset, continuation, entrySize).value;
      && ranges != [] && Contiguous(ranges, 0) && TotalLength(ranges) == entrySize
      && (forall r | r in ranges :: WithinSource(sources, r))
  {
    var start := StartIndex(volumes, startPath);
    WalkLayout(Walk(sources, volumes, continuation, start), start, Max(startOffset, 0), 0, entrySize);
  }

  /** A range inside the claimed size of its volume always lays out, with or without segment data. */
  lemma WithinLaysOut(sources: Sources, r: RangeSource)
    requires WithinSource(sources, r)
    ensures RangeLaysOut(sources, r)
  {
    var source := sources[VolumeKey(r.volumePath)];
    if |source.messageIds| > 0 && source.decodedSegmentSize > 0 {
      SourceSizeIsTotal(source);
    }
  }

  lemma WithinInside(sources: Sources, r: RangeSource)
    requires WithinSource(sources, r) && HasSegments(sources[VolumeKey(r.volumePath)])
    ensures InsideVolume(sources, r)
  {
    var source := sources[VolumeKey(r.volumePath)];
    SourceSizeIsTotal(source);
    StartsInsideTotal(|source.messageIds|, source.decodedSegmentSize, source.lastDecodedSize, r.archiveOffset,
                      r.lengthBytes);
  }

  /** When the volumes' segments are known, the spans built from a rebuilt layout tile exactly the
      entry: the size comparison the loader makes before using them cannot fail. */
  lemma ReconstructedTiles(sources: Sources, volumes: seq<VolumeMeta>, startPath: string, startOffset: int,
                           continuation: map<string, int>, entrySize: int)
    requires Reconstructed(sources, volumes, startPath, startOffset, continuation, entrySize).Some?
    requires forall key | key in sources :: HasSegments(sources[key])
    ensures var ranges := Reconstructed(sources, volumes, startPath, startOffset, continuation, entrySize).value;
      && Tiles(StoredRarSpans(sources, ranges), 0, entrySize)
      && FileSize(StoredRarSpans(sources, ranges)) == entrySize
  {
    ReconstructedLayout(sources, volumes, startPath, startOffset, continuation, entrySize);
    var ranges := Reconstructed(sources, volumes, startPath, startOffset, continuation, entrySize).value;
    forall r | r in ranges ensures InsideVolume(sources, r) {
      WithinInside(sources, r);
    }
    ContiguousTiles(sources, ranges);
  }

  // ----- When the walk succeeds ------------------------------------------------------------------------

  /** The bytes volume `i` can contribute; at the start volume reading begins at `startOffset`. */
  function Capacity(w: Walk, i: nat, startOffset: int): int
    requires i < |w.volumes| && KeyAt(w, i) in w.sources
  {
    SourceSize(w.sources[KeyAt(w, i)]) - OffsetAt(w, i, if i == w.startIndex then startOffset else 0)
  }

  /** Volumes i..k are all known, each contributes something, and together at least `needed` bytes. */
  predicate CoveredBy(w: Walk, i: nat, k: nat, startOffset: int, needed: int)
    requires i <= k <= |w.volumes|
    decreases k - i
  {
    if i == k then needed <= 0
    else
      && KeyAt(w, i) in w.sources && Capacity(w, i, startOffset) > 0
      && CoveredBy(w, i + 1, k, startOffset, needed - Capacity(w, i, startOffset))
  }

  lemma {:induction false} WalkCovered(w: Walk, i: nat, carried: int, startOffset: int, entryOffset: int,
                                       remaining: int)
    requires w.startIndex <= i <= |w.volumes| && remaining >= 0
    requires carried == if i == w.startIndex then startOffset else 0
    ensures WalkFrom(w, i, carried, entryOffset, remaining).Some? ==>
              exists k :: i <= k <= |w.volumes| && CoveredBy(w, i, k, startOffset, remaining)
    decreases |w.volumes| - i
  {
    if remaining == 0 {
      assert CoveredBy(w, i, i, startOffset, remaining);
    } else if i < |w.volumes| && KeyAt(w, i) in w.sources {
      var offset, size := OffsetAt(w, i, carried), SourceSize(w.sources[KeyAt(w, i)]);
      if size > offset && WalkFrom(w, i, carried, entryOffset, remaining).Some? {
        var length := Min(remaining, size - offset);
        if length == remaining {
          assert CoveredBy(w, i + 1, i + 1, startOffset, remaining - (size - offset));
          assert CoveredBy(w, i, i + 1, startOffset, remaining);
        } else {
          WalkCovered(w, i + 1, 0, startOffset, entryOffset + length, remaining - length);
          var k :| i + 1 <= k <= |w.volumes| && CoveredBy(w, i + 1, k, startOffset, remaining - length);
          assert CoveredBy(w, i, k, startOffset, remaining);
        }
      }
    }
  }

  lemma {:induction false} CoveredWalks(w: Walk, i: nat, k: nat, carried: int, startOffset: int, entryOffset: int,
                                        remaining: int, needed: int)
    requires w.startIndex <= i <= k <= |w.volumes| && remaining <= needed
    requires carried == if i == w.startIndex then startOffset else 0
    requires CoveredBy(w, i, k, startOffset, needed)
    ensures WalkFrom(w, i, carried, entryOffset, remaining).Some?
    decreases k - i
  {
    if remaining > 0 {
      var capacity := Capacity(w, i, startOffset);
      var length := Min(remaining, capacity);
      if length < remaining {
        CoveredWalks(w, i + 1, k, 0, startOffset, entryOffset + length, remaining - length, needed - capacity);
      }
    }
  }

  /** The rebuild gives up exactly when no run of known volumes from the start volume on, each with
      room past its start offset, adds up to the entry size. */
  lemma ReconstructedExactly(sources: Sources, volumes: seq<VolumeMeta>, startPath: string, startOffset: int,
                             continuation: map<string, int>, entrySize: int)
    ensures var start := StartIndex(volumes, startPath);
      Reconstructed(sources, volumes, startPath, startOffset, continuation, entrySize).Some?
      <==> && |sources| > 0 && volumes != [] && entrySize > 0
           && exists k :: start <= k <= |volumes|
                && CoveredBy(Walk(sources, volumes, continuation, start), start, k, Max(startOffset, 0), entrySize)
  {
    var start := StartIndex(volumes, startPath);
    var w, from := Walk(sources, volumes, continuation, start), Max(startOffset, 0);
    if |sources| > 0 && volumes != [] && entrySize > 0 {
      WalkCovered(w, start, from, from, 0, entrySize);
      if k :| start <= k <= |volumes| && CoveredBy(w, start, k, from, entrySize) {
        CoveredWalks(w, start, k, from, from, 0, entrySize, entrySize);
      }
    }
  }
}
