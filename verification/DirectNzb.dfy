/** The size recorded for a directly posted file (`calibratedDirectNZBSize`) against the bytes its span
    table covers. */
module DirectNzb {
  import opened SpanLayout

  const MAX_TRUSTED_SHRINK_PERCENT := 10

  /** The measured size, unless it is more than the trusted share below the declared one. */
  function CalibratedSize(declared: int, segmentCount: int, first: int, last: int): int {
    if segmentCount <= 0 then 0
    else
      var total := (segmentCount - 1) * first + last;
      if declared <= 0 || total <= 0 then total
      else if total < declared * (100 - MAX_TRUSTED_SHRINK_PERCENT) / 100 then declared
      else total
  }

  /** Whatever size was declared, the spans computed for the calibrated size cover exactly the measured
      bytes; the recorded size is that coverage unless the shrink was refused, and then it is larger. */
  lemma CalibratedCoverage(ids: seq<string>, declared: int, first: int, last: int)
    requires ids != [] && first > 0 && last > 0
    ensures var n := |ids|;
      var size, total := CalibratedSize(declared, n, first, last), (n - 1) * first + last;
      && Tiles(Spans(ids, first, last, 0, size), 0, total)
      && (declared > 0 && total < declared * (100 - MAX_TRUSTED_SHRINK_PERCENT) / 100 <==> size != total)
      && size >= total
  {
    var n := |ids|;
    var size := CalibratedSize(declared, n, first, last);
    SegmentStartIsProduct(first, n - 1);
    SegmentEnds(n, first, last, n - 1);
    assert 0 / first == 0;
    SpansTile(ids, first, last, 0, size);
  }

  /** Two articles of ten bytes declared as a hundred: the shrink to twenty is refused, and the recorded size
      is five times what the spans cover. */
  lemma RefusedShrinkExample()
    ensures CalibratedSize(100, 2, 10, 10) == 100
    ensures Tiles(Spans(["a", "b"], 10, 10, 0, 100), 0, 20)
  {
    CalibratedCoverage(["a", "b"], 100, 10, 10);
  }

  /** A shrink from a hundred to ninety is believed, one to eighty-nine is not. */
  lemma TrustedShrinkExample()
    ensures CalibratedSize(100, 2, 45, 45) == 90 && CalibratedSize(100, 2, 45, 44) == 100
  {
  }
}
