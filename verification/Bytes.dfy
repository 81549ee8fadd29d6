/** Bytes, and the position of one byte string inside another. */
module Bytes {

  newtype byte = x: int | 0 <= x < 0x100

  /** `whole` holds `part` at position `pos`. */
  ghost predicate PartAt<T>(whole: seq<T>, pos: int, part: seq<T>) {
    0 <= pos && pos + |part| <= |whole| && forall i | 0 <= i < |part| :: part[i] == whole[pos + i]
  }

  /** The pieces of a concatenation stand one behind the other. */
  lemma PartAtConcat<T>(whole: seq<T>, pos: int, a: seq<T>, b: seq<T>)
    requires PartAt(whole, pos, a + b)
    ensures PartAt(whole, pos, a) && PartAt(whole, pos + |a|, b)
  {
    var part := a + b;
    assert forall i | 0 <= i < |a| :: a[i] == part[i];
    forall i | 0 <= i < |b| ensures b[i] == whole[pos + |a| + i] {
      assert part[|a| + i] == b[i];
    }
  }

  lemma PartAtLeft<T>(a: seq<T>, b: seq<T>)
    ensures PartAt(a + b, 0, a)
  {
  }

  lemma PartAtRight<T>(a: seq<T>, b: seq<T>, pos: int, part: seq<T>)
    requires PartAt(b, pos, part)
    ensures PartAt(a + b, |a| + pos, part)
  {
  }

  lemma PartAtFits<T>(whole: seq<T>, pos: int, part: seq<T>)
    requires PartAt(whole, pos, part)
    ensures 0 <= pos && pos + |part| <= |whole|
  {
  }

  lemma PrefixIsPart<T>(whole: seq<T>, part: seq<T>)
    requires part <= whole
    ensures PartAt(whole, 0, part)
  {
  }

  /** A part of a part. */
  lemma PartOfPart<T>(whole: seq<T>, pos: int, part: seq<T>, from: int, to: int)
    requires PartAt(whole, pos, part) && 0 <= from <= to <= |part|
    ensures pos + to <= |whole| && part[from..to] == whole[pos + from..pos + to]
  {
    var piece := part[from..to];
    assert forall k | 0 <= k < |piece| :: piece[k] == part[from + k] == whole[pos + (from + k)];
    assert piece == whole[pos + from..pos + to];
  }

  lemma SliceAcross<T>(a: seq<T>, b: seq<T>, from: int, to: int)
    requires 0 <= from <= |a| <= to <= |a| + |b|
    ensures (a + b)[from..to] == a[from..|a|] + b[0..to - |a|]
  {
  }

  lemma SliceWithin<T>(a: seq<T>, b: seq<T>, from: int, to: int)
    requires 0 <= from <= to <= |a|
    ensures (a + b)[from..to] == a[from..to] + []
  {
  }

  lemma SliceOfSuffix<T>(whole: seq<T>, at: int, from: int, to: int)
    requires 0 <= at <= from <= to <= |whole|
    ensures whole[at..][from - at..to - at] == whole[from..to]
  {
  }

  lemma SliceOfSlice<T>(s: seq<T>, a: int, b: int, from: int, to: int)
    requires 0 <= a <= b <= |s| && 0 <= from <= to <= b - a
    ensures s[a..b][from..to] == s[a + from..a + to]
  {
    var part := s[a..b];
    var piece := part[from..to];
    assert forall k | 0 <= k < |piece| :: piece[k] == part[from + k] == s[a + (from + k)];
    assert piece == s[a + from..a + to];
  }

  lemma SliceJoin<T>(s: seq<T>, a: int, b: int, c: int)
    requires 0 <= a <= b <= c <= |s|
    ensures s[a..b] + s[b..c] == s[a..c]
  {
  }
}
