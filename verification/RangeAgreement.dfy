/** The walk at import time (`assignArchiveRanges`) and the walk at load time
    (`reconstructStoredRarRanges`) were written separately; on corresponding volumes they agree. */
module RangeAgreement {
  import R = StoredRarRebuild
  import S = StoredRar
  import A = ArchiveRanges

  /** The two views of the volume set agree: volume `i` has a size exactly when its source is known,
      the sizes are equal, and the same continuation offsets are detected. */
  ghost predicate SameVolumes(w: R.Walk, sizes: map<int, int>, offsets: map<int, int>) {
    && (forall v | v in sizes :: 0 <= v < |w.volumes|)
    && (forall i: nat | i < |w.volumes| :: SameVolume(w, sizes, offsets, i))
  }

  ghost predicate SameVolume(w: R.Walk, sizes: map<int, int>, offsets: map<int, int>, i: nat)
    requires i < |w.volumes|
  {
    var key := R.KeyAt(w, i);
    && (i in sizes <==> key in w.sources)
    && (i in sizes ==> sizes[i] == R.SourceSize(w.sources[key]))
    && (i in offsets <==> key in w.continuation && w.continuation[key] >= 0)
    && (i in offsets ==> offsets[i] == w.continuation[key])
  }

  /** Range by range, the same slice of the same volume. */
  ghost predicate SameRanges(w: R.Walk, loaded: seq<S.RangeSource>, imported: seq<A.ArchiveRange>) {
    && |loaded| == |imported|
    && forall k | 0 <= k < |loaded| :: SameRange(w, loaded[k], imported[k])
  }

  ghost predicate SameRange(w: R.Walk, loaded: S.RangeSource, imported: A.ArchiveRange) {
    && 0 <= imported.volumeIndex < |w.volumes| && loaded.volumePath == w.volumes[imported.volumeIndex].path
    && loaded.entryOffset == imported.entryOffset && loaded.archiveOffset == imported.archiveOffset
    && loaded.lengthBytes == imported.lengthBytes
  }

  lemma {:induction false} WalksAgree(w: R.Walk, sizes: map<int, int>, offsets: map<int, int>, v: nat, carried: int,
                                      entryOffset: int, remaining: int)
    requires SameVolumes(w, sizes, offsets) && w.startIndex <= v <= |w.volumes|
    ensures var loaded := R.WalkFrom(w, v, carried, entryOffset, remaining);
      var imported := A.AssignFrom(sizes, offsets, w.startIndex, v, carried, entryOffset, remaining);
      && (loaded.Some? <==> imported.Some?)
      && (loaded.Some? ==> SameRanges(w, loaded.value, imported.value))
    decreases |w.volumes| - v
  {
    hide R.SourceSize, S.VolumeKey;
    if remaining > 0 && v < |w.volumes| {
      assert SameVolume(w, sizes, offsets, v);
      if v in sizes {
        var offset := R.OffsetAt(w, v, carried);
        if offset < sizes[v] {
          var length := A.Min(remaining, sizes[v] - offset);
          WalksAgree(w, sizes, offsets, v + 1, 0, entryOffset + length, remaining - length);
        }
      }
    }
  }

  /** For an entry that starts in volume `startIndex`, both walks give the same ranges or both fail. */
  lemma AssignAgreesWithReconstruct(sources: S.Sources, volumes: seq<S.VolumeMeta>, startPath: string,
                                    continuation: map<string, int>, entry: A.ArchiveEntry,
                                    sizes: map<int, int>, offsets: map<int, int>)
    requires |sources| > 0 && volumes != []
    requires entry.ranges == [] && entry.packedSizeBytes > 0 && entry.archiveOffset >= 0
    requires entry.volumeIndex == R.StartIndex(volumes, startPath)
    requires SameVolumes(R.Walk(sources, volumes, continuation, entry.volumeIndex), sizes, offsets)
    ensures var w := R.Walk(sources, volumes, continuation, entry.volumeIndex);
      var loaded := R.Reconstructed(sources, volumes, startPath, entry.archiveOffset, continuation,
                                    entry.packedSizeBytes);
      var imported := A.Assigned(entry, sizes, offsets).ranges;
      && (loaded.None? <==> imported == [])
      && (loaded.Some? ==> SameRanges(w, loaded.value, imported))
  {
    var w := R.Walk(sources, volumes, continuation, entry.volumeIndex);
    WalksAgree(w, sizes, offsets, entry.volumeIndex, entry.archiveOffset, 0, entry.packedSizeBytes);
    var walked := A.AssignFrom(sizes, offsets, entry.volumeIndex, entry.volumeIndex, entry.archiveOffset, 0,
                               entry.packedSizeBytes);
    if walked.Some? {
      assert entry.ranges + walked.value == walked.value;
      R.ReconstructedLayout(sources, volumes, startPath, entry.archiveOffset, continuation, entry.packedSizeBytes);
    }
  }
}
