/** Putting the fragments of a RAR set together (`aggregateRARVolumeEntries`): which lists of fragments are
    accepted, and what the entry of each file is, in terms of the fragments as they were parsed. */
module Aggregation {
  import opened ArchiveRanges
  import StableSort
  import Text

  predicate PartLess(a: ArchiveEntry, b: ArchiveEntry) {
    if a.volumeIndex != b.volumeIndex then a.volumeIndex < b.volumeIndex else a.archiveOffset < b.archiveOffset
  }

  predicate PathLess(a: ArchiveEntry, b: ArchiveEntry) {
    Text.Less(Text.ToLower(a.path), Text.ToLower(b.path))
  }

  /** The fragments of one file, in the order they were parsed. */
  function Group(parts: seq<ArchiveEntry>, path: string): seq<ArchiveEntry> {
    if parts == [] then []
    else (if parts[0].path == path then [parts[0]] else []) + Group(parts[1..], path)
  }

  function SortedGroup(parts: seq<ArchiveEntry>, path: string): seq<ArchiveEntry> {
    StableSort.Sort(Group(parts, path), PartLess)
  }

  // ----- What is accepted, and what comes out ---------------------------------------------------------------------

  /** The fragment has bytes, and its volume, if its size is known, holds some of them. */
  predicate Usable(part: ArchiveEntry, sizes: map<int, int>) {
    part.packedSizeBytes > 0 && (part.volumeIndex in sizes ==> part.archiveOffset < sizes[part.volumeIndex])
  }

  /** Fragments of different files, or of one kind in different volumes. */
  predicate Compatible(a: ArchiveEntry, b: ArchiveEntry) {
    a.path == b.path ==>
      && a.volumeIndex != b.volumeIndex && a.compressionMethod == b.compressionMethod
      && a.encrypted == b.encrypted && a.solid == b.solid
  }

  /** Every fragment is usable, and no two of one file are in one volume or of different kinds. */
  ghost predicate Acceptable(parts: seq<ArchiveEntry>, sizes: map<int, int>) {
    && (forall part | part in parts :: Usable(part, sizes))
    && (forall i, j | 0 <= i < j < |parts| :: Compatible(parts[i], parts[j]))
  }

  /** The fragment gives all its bytes, or those up to the end of its volume if that comes first. */
  predicate Gives(part: ArchiveEntry, sizes: map<int, int>, length: int) {
    && 0 < length <= part.packedSizeBytes
    && (part.volumeIndex in sizes ==> part.archiveOffset + length <= sizes[part.volumeIndex])
    && (length == part.packedSizeBytes
        || (part.volumeIndex in sizes && part.archiveOffset + length == sizes[part.volumeIndex]))
  }

  /** The range is where the fragment is, and as long as the bytes it gives, with `extra` added. */
  predicate TakenFrom(r: ArchiveRange, part: ArchiveEntry, sizes: map<int, int>, extra: int) {
    && r.volumeIndex == part.volumeIndex && r.archiveOffset == part.archiveOffset
    && Gives(part, sizes, r.lengthBytes - extra)
  }

  /** What rounding adds to the last range for a declared size and the bytes the fragments give. */
  function Extra(declared: int, given: int): int {
    if declared > 0 && -16 <= declared - given <= 16 then declared - given else 0
  }

  /** Each range after the first lies in a later volume and goes on where the one before it ends. */
  ghost predicate Chained(ranges: seq<ArchiveRange>) {
    && (ranges != [] ==> ranges[0].entryOffset == 0)
    && (forall k | 0 < k < |ranges| :: ranges[k].entryOffset == ranges[k - 1].entryOffset + ranges[k - 1].lengthBytes)
    && (forall j, k | 0 <= j < k < |ranges| :: ranges[j].volumeIndex < ranges[k].volumeIndex)
  }

  /** `part` is a fragment of the entry's file, and agrees with the entry. */
  predicate Belongs(part: ArchiveEntry, entry: ArchiveEntry) {
    && part.path == entry.path && part.compressionMethod == entry.compressionMethod
    && part.encrypted == entry.encrypted && part.solid == entry.solid
  }

  /** The largest size that the fragments of a file declare. */
  ghost predicate LargestSize(parts: seq<ArchiveEntry>, path: string, declared: int) {
    && (exists part | part in parts :: part.path == path && part.sizeBytes == declared)
    && (forall part | part in parts && part.path == path :: part.sizeBytes <= declared)
  }

  /** One of the fragments of the file gives the range. */
  ghost predicate Sourced(r: ArchiveRange, parts: seq<ArchiveEntry>, path: string, sizes: map<int, int>, extra: int) {
    exists part | part in parts :: part.path == path && TakenFrom(r, part, sizes, extra)
  }

  /** A range in the fragment's volume. */
  ghost predicate Listed(part: ArchiveEntry, ranges: seq<ArchiveRange>) {
    exists k | 0 <= k < |ranges| :: ranges[k].volumeIndex == part.volumeIndex
  }

  /** The entry is put together from all fragments of its file and nothing else: one range for each, in the
      order of volumes and one behind the other; its sizes are the bytes the fragments give and the largest
      declared size, reconciled. */
  ghost predicate PutTogether(entry: ArchiveEntry, parts: seq<ArchiveEntry>, sizes: map<int, int>, declared: int,
                              given: int) {
    var ranges, last, extra := entry.ranges, |entry.ranges| - 1, Extra(declared, given);
    && ranges != [] && Chained(ranges) && LargestSize(parts, entry.path, declared)
    && entry.volumeIndex == ranges[0].volumeIndex && entry.archiveOffset == ranges[0].archiveOffset
    && (forall part | part in parts && part.path == entry.path :: Belongs(part, entry) && Listed(part, ranges))
    && (forall k | 0 <= k < |ranges| :: Sourced(ranges[k], parts, entry.path, sizes, if k == last then extra else 0))
    && ranges[last].entryOffset + ranges[last].lengthBytes == entry.packedSizeBytes == given + extra
    && entry.sizeBytes
       == if 0 < declared && (declared > given + 16 || declared < given - 16)
          then if entry.compressionMethod == "m0" then given else declared
          else declared
  }

  ghost predicate Assembled(entry: ArchiveEntry, parts: seq<ArchiveEntry>, sizes: map<int, int>) {
    exists declared: int, given: int :: PutTogether(entry, parts, sizes, declared, given)
  }

  /** One assembled entry for each file, ordered by path whatever its case. */
  ghost predicate Aggregated(out: seq<ArchiveEntry>, parts: seq<ArchiveEntry>, sizes: map<int, int>) {
    && (forall entry | entry in out :: Assembled(entry, parts, sizes))
    && (forall part | part in parts :: Has(out, part.path))
    && OncePerPath(out) && InPathOrder(out)
  }

  ghost predicate Has(out: seq<ArchiveEntry>, path: string) {
    exists entry | entry in out :: entry.path == path
  }

  ghost predicate OncePerPath(out: seq<ArchiveEntry>) {
    forall i, j | 0 <= i < j < |out| :: out[i].path != out[j].path
  }

  ghost predicate InPathOrder(out: seq<ArchiveEntry>) {
    forall i, j | 0 <= i < j < |out| :: Text.NotBehind(out[i].path, out[j].path)
  }

  // ----- When the fragments of a file can be joined ---------------------------------------------------------------

  lemma {:induction false} GroupMember(parts: seq<ArchiveEntry>, path: string, part: ArchiveEntry)
    ensures part in Group(parts, path) <==> part in parts && part.path == path
  {
    if parts != [] {
      GroupMember(parts[1..], path, part);
      assert parts == [parts[0]] + parts[1..];
    }
  }

  lemma SortedMember(parts: seq<ArchiveEntry>, path: string, part: ArchiveEntry)
    ensures part in SortedGroup(parts, path) <==> part in parts && part.path == path
  {
    GroupMember(parts, path, part);
    StableSort.SortMembers(Group(parts, path), PartLess, part);
  }

  lemma {:induction false} GroupCompatible(parts: seq<ArchiveEntry>, path: string)
    requires StableSort.Pairwise(parts, Compatible)
    ensures StableSort.Pairwise(Group(parts, path), Compatible)
  {
    hide StableSort.Pairwise, Compatible;
    if parts != [] {
      assert parts == [parts[0]] + parts[1..];
      StableSort.PairwiseCons(parts[0], parts[1..], Compatible);
      GroupCompatible(parts[1..], path);
      var rest := Group(parts[1..], path);
      forall y | y in rest ensures y in parts[1..] {
        GroupMember(parts[1..], path, y);
      }
      StableSort.PairwiseCons(parts[0], rest, Compatible);
      assert [] + rest == rest;
    } else {
      NoPairs();
    }
  }

  lemma NoPairs()
    ensures StableSort.Pairwise([], Compatible)
  {
  }

  lemma {:induction false} GroupsCompatible(parts: seq<ArchiveEntry>)
    requires forall path | path in Paths(parts) :: StableSort.Pairwise(Group(parts, path), Compatible)
    ensures StableSort.Pairwise(parts, Compatible)
  {
    if parts == [] {
      NoPairs();
    } else {
      var first, rest := parts[0], parts[1..];
      assert parts == [first] + rest && Paths(parts) == {first.path} + Paths(rest);
      forall path | path in Paths(rest) ensures StableSort.Pairwise(Group(rest, path), Compatible) {
        GroupStep(first, rest, path);
        StableSort.PairwiseCons(first, Group(rest, path), Compatible);
        assert [] + Group(rest, path) == Group(rest, path);
      }
      GroupsCompatible(rest);
      FirstCompatible(first, rest);
      StableSort.PairwiseCons(first, rest, Compatible);
    }
  }

  lemma FirstCompatible(first: ArchiveEntry, rest: seq<ArchiveEntry>)
    requires StableSort.Pairwise(Group([first] + rest, first.path), Compatible)
    ensures forall y | y in rest :: Compatible(first, y)
  {
    GroupStep(first, rest, first.path);
    StableSort.PairwiseCons(first, Group(rest, first.path), Compatible);
    forall y | y in rest ensures Compatible(first, y) {
      GroupMember(rest, first.path, y);
    }
  }

  lemma CompatibleSymmetric()
    ensures StableSort.Symmetric(Compatible)
  {
  }

  lemma PartLessIsOrder()
    ensures StableSort.StrictWeakOrder(PartLess)
  {
  }

  lemma UsableExactly(part: ArchiveEntry, sizes: map<int, int>)
    ensures Usable(part, sizes) <==> PartLength(part, sizes).Some?
    ensures Usable(part, sizes) ==> Gives(part, sizes, Contribution(part, sizes))
  {
  }

  /** The sorted fragments of one file can be joined exactly when they are usable and compatible. */
  lemma SortedJoinable(parts: seq<ArchiveEntry>, sizes: map<int, int>, path: string)
    ensures Joinable(SortedGroup(parts, path), sizes) <==>
      && (forall part | part in parts && part.path == path :: Usable(part, sizes))
      && StableSort.Pairwise(Group(parts, path), Compatible)
  {
    var g := SortedGroup(parts, path);
    hide SortedGroup, Group, PartLess, PartLength, Joinable, StableSort.Pairwise, StableSort.Ordered;
    forall part ensures part in g <==> part in parts && part.path == path {
      SortedMember(parts, path, part);
    }
    PartLessIsOrder();
    CompatibleSymmetric();
    SortedIs(parts, path);
    StableSort.SortSorts(Group(parts, path), PartLess);
    StableSort.SortPairwise(Group(parts, path), PartLess, Compatible);
    if Joinable(g, sizes) {
      JoinableCompatible(g, sizes);
    }
    if (forall part | part in g :: Usable(part, sizes)) && StableSort.Pairwise(g, Compatible) {
      CompatibleJoinable(g, sizes, path);
    }
  }

  lemma SortedIs(parts: seq<ArchiveEntry>, path: string)
    ensures SortedGroup(parts, path) == StableSort.Sort(Group(parts, path), PartLess)
  {
  }

  lemma JoinableCompatible(g: seq<ArchiveEntry>, sizes: map<int, int>)
    requires Joinable(g, sizes)
    ensures (forall part | part in g :: Usable(part, sizes)) && StableSort.Pairwise(g, Compatible)
  {
    forall part | part in g ensures Usable(part, sizes) {
      var k :| 0 <= k < |g| && g[k] == part;
      assert FitsAt(g, sizes, k);
      UsableExactly(part, sizes);
    }
    forall i, j | 0 <= i < j < |g| ensures Compatible(g[i], g[j]) {
      assert FitsAt(g, sizes, i) && FitsAt(g, sizes, j);
      JoinedVolumesIncrease(g, sizes, i, j);
    }
  }

  lemma CompatibleJoinable(g: seq<ArchiveEntry>, sizes: map<int, int>, path: string)
    requires forall part | part in g :: part.path == path && Usable(part, sizes)
    requires StableSort.Pairwise(g, Compatible) && StableSort.Ordered(g, PartLess)
    ensures Joinable(g, sizes)
  {
    forall k: nat | k < |g| ensures FitsAt(g, sizes, k) {
      assert g[k] in g && g[0] in g;
      UsableExactly(g[k], sizes);
      if k > 0 {
        assert g[k - 1] in g && Compatible(g[0], g[k]) && Compatible(g[k - 1], g[k]) && !PartLess(g[k], g[k - 1]);
      }
    }
  }

  /** Every file can be joined exactly when the list of fragments is acceptable. */
  lemma AcceptableExactly(parts: seq<ArchiveEntry>, sizes: map<int, int>)
    ensures JoinablePaths(parts, sizes) == Paths(parts) <==> Acceptable(parts, sizes)
  {
    hide SortedGroup, Group, Compatible, Usable, Joinable;
    forall path ensures Joinable(SortedGroup(parts, path), sizes) <==>
      && (forall part | part in parts && part.path == path :: Usable(part, sizes))
      && StableSort.Pairwise(Group(parts, path), Compatible)
    {
      SortedJoinable(parts, sizes, path);
    }
    if Acceptable(parts, sizes) {
      forall path | path in Paths(parts) ensures path in JoinablePaths(parts, sizes) {
        GroupCompatible(parts, path);
      }
    }
    if JoinablePaths(parts, sizes) == Paths(parts) {
      forall path | path in Paths(parts) ensures StableSort.Pairwise(Group(parts, path), Compatible) {
        assert path in JoinablePaths(parts, sizes);
      }
      GroupsCompatible(parts);
      forall part | part in parts ensures Usable(part, sizes) {
        assert part.path in JoinablePaths(parts, sizes);
      }
    }
  }

  // ----- What a joined entry is -------------------------------------------------------------------------------------

  lemma {:induction false} LargestDeclared(g: seq<ArchiveEntry>, n: nat)
    requires 0 < n <= |g|
    ensures exists part | part in g[..n] :: part.sizeBytes == Declared(g, n)
    ensures forall part | part in g[..n] :: part.sizeBytes <= Declared(g, n)
  {
    assert g[..n] == g[..n - 1] + [g[n - 1]];
    if n > 1 {
      LargestDeclared(g, n - 1);
    } else {
      assert g[0] in g[..1];
    }
  }

  /** Range `k` of a joined entry: its place, and the fragment it comes from. */
  lemma JoinedRange(g: seq<ArchiveEntry>, sizes: map<int, int>, k: nat)
    requires Joinable(g, sizes) && k < |g|
    ensures var n := |g|;
      var entry, extra := Joined(g, sizes), Extra(Declared(g, n), Packed(g, sizes, n));
      && |entry.ranges| == n && TakenFrom(entry.ranges[k], g[k], sizes, if k == n - 1 then extra else 0)
      && entry.ranges[k].entryOffset == Packed(g, sizes, k)
      && entry.ranges[k].entryOffset + entry.ranges[k].lengthBytes
         == Packed(g, sizes, k + 1) + if k == n - 1 then extra else 0
  {
    hide Joined, Declared;
    JoinedShape(g, sizes, k);
    assert FitsAt(g, sizes, k);
    UsableExactly(g[k], sizes);
    PackedStep(g, sizes, k);
  }

  lemma PackedStep(g: seq<ArchiveEntry>, sizes: map<int, int>, k: nat)
    requires k < |g|
    ensures Packed(g, sizes, 0) == 0 && Packed(g, sizes, k + 1) == Packed(g, sizes, k) + Contribution(g[k], sizes)
  {
  }

  lemma JoinedChained(g: seq<ArchiveEntry>, sizes: map<int, int>)
    requires Joinable(g, sizes) && g != []
    ensures Chained(Joined(g, sizes).ranges)
  {
    hide Joined, Packed, Declared, Gives, Extra;
    var ranges := Joined(g, sizes).ranges;
    JoinedRange(g, sizes, 0);
    PackedStep(g, sizes, 0);
    forall k | 0 < k < |ranges|
      ensures ranges[k].entryOffset == ranges[k - 1].entryOffset + ranges[k - 1].lengthBytes
    {
      JoinedRange(g, sizes, k - 1);
      JoinedRange(g, sizes, k);
    }
    forall j, k | 0 <= j < k < |ranges| ensures ranges[j].volumeIndex < ranges[k].volumeIndex {
      JoinedRange(g, sizes, j);
      JoinedRange(g, sizes, k);
      JoinedVolumesIncrease(g, sizes, j, k);
    }
  }

  /** The other fields of a joined entry. */
  lemma JoinedFields(g: seq<ArchiveEntry>, sizes: map<int, int>)
    requires Joinable(g, sizes) && g != []
    ensures var n := |g|;
      var entry, declared, given := Joined(g, sizes), Declared(g, n), Packed(g, sizes, n);
      && entry.volumeIndex == g[0].volumeIndex && entry.archiveOffset == g[0].archiveOffset
      && (forall part | part in g :: Belongs(part, entry))
      && entry.packedSizeBytes == given + Extra(declared, given)
      && entry.sizeBytes
         == if 0 < declared && (declared > given + 16 || declared < given - 16)
            then if entry.compressionMethod == "m0" then given else declared
            else declared
  {
    hide Declared, Packed, JoinedRanges;
    forall part | part in g ensures Belongs(part, Joined(g, sizes)) {
      var k :| 0 <= k < |g| && g[k] == part;
      assert FitsAt(g, sizes, k);
    }
  }

  /** `g` has the fragments of one file, in some order. */
  ghost predicate FragmentsOf(g: seq<ArchiveEntry>, parts: seq<ArchiveEntry>, path: string) {
    forall part :: part in g <==> part in parts && part.path == path
  }

  lemma JoinedPutTogether(parts: seq<ArchiveEntry>, sizes: map<int, int>, path: string)
    requires path in Paths(parts) && Joinable(SortedGroup(parts, path), sizes)
    ensures SortedGroup(parts, path) != []
    ensures Joined(SortedGroup(parts, path), sizes).path == path
    ensures Assembled(Joined(SortedGroup(parts, path), sizes), parts, sizes)
  {
    hide SortedGroup, Joined, Joinable, Assembled;
    SortedGroupNonEmpty(parts, path);
    var g := SortedGroup(parts, path);
    forall part ensures part in g <==> part in parts && part.path == path {
      SortedMember(parts, path, part);
    }
    GroupPutTogether(g, parts, sizes, path);
  }

  lemma GroupPutTogether(g: seq<ArchiveEntry>, parts: seq<ArchiveEntry>, sizes: map<int, int>, path: string)
    requires g != [] && Joinable(g, sizes) && FragmentsOf(g, parts, path)
    ensures Joined(g, sizes).path == path && Assembled(Joined(g, sizes), parts, sizes)
  {
    hide Joined, Joinable, Packed, Declared, Chained, Extra, TakenFrom, Sourced, Listed, LargestSize;
    var entry, n := Joined(g, sizes), |g|;
    JoinedFields(g, sizes);
    assert g[0] in g && Belongs(g[0], entry);
    JoinedChained(g, sizes);
    GroupLargest(g, parts, path);
    FirstRange(g, sizes);
    GroupSourced(g, parts, sizes, path);
    JoinedRange(g, sizes, n - 1);
    assert PutTogether(entry, parts, sizes, Declared(g, n), Packed(g, sizes, n));
  }

  lemma FirstRange(g: seq<ArchiveEntry>, sizes: map<int, int>)
    requires g != [] && Joinable(g, sizes)
    ensures |Joined(g, sizes).ranges| == |g|
    ensures var r := Joined(g, sizes).ranges[0];
      r.volumeIndex == g[0].volumeIndex && r.archiveOffset == g[0].archiveOffset
  {
    hide Joined, Joinable, Packed, Declared;
    JoinedRange(g, sizes, 0);
  }

  lemma GroupLargest(g: seq<ArchiveEntry>, parts: seq<ArchiveEntry>, path: string)
    requires g != [] && FragmentsOf(g, parts, path)
    ensures LargestSize(parts, path, Declared(g, |g|))
  {
    LargestDeclared(g, |g|);
    assert g[..|g|] == g;
  }

  lemma GroupSourced(g: seq<ArchiveEntry>, parts: seq<ArchiveEntry>, sizes: map<int, int>, path: string)
    requires g != [] && Joinable(g, sizes) && FragmentsOf(g, parts, path)
    ensures var n := |g|;
      var ranges, extra := Joined(g, sizes).ranges, Extra(Declared(g, n), Packed(g, sizes, n));
      && |ranges| == n
      && (forall k | 0 <= k < n :: Sourced(ranges[k], parts, path, sizes, if k == n - 1 then extra else 0))
      && (forall part | part in parts && part.path == path :: Listed(part, ranges))
  {
    hide Joined, Joinable, Packed, Declared, Extra, Gives;
    var ranges, n := Joined(g, sizes).ranges, |g|;
    var extra := Extra(Declared(g, n), Packed(g, sizes, n));
    JoinedRange(g, sizes, 0);
    forall k | 0 <= k < n ensures Sourced(ranges[k], parts, path, sizes, if k == n - 1 then extra else 0) {
      JoinedRange(g, sizes, k);
      assert g[k] in g;
    }
    forall part | part in parts && part.path == path ensures Listed(part, ranges) {
      assert part in g;
      var k :| 0 <= k < n && g[k] == part;
      JoinedRange(g, sizes, k);
    }
  }

  // ----- The whole list of fragments -------------------------------------------------------------------

  ghost function Paths(parts: seq<ArchiveEntry>): set<string> {
    set part | part in parts :: part.path
  }

  lemma {:induction false} GroupMembers(parts: seq<ArchiveEntry>, path: string)
    ensures Group(parts, path) == [] <==> path !in Paths(parts)
    ensures forall part | part in Group(parts, path) :: part.path == path
  {
    if parts != [] {
      GroupMembers(parts[1..], path);
      assert parts == [parts[0]] + parts[1..];
      assert Paths(parts) == {parts[0].path} + Paths(parts[1..]);
    }
  }

  lemma GroupStep(first: ArchiveEntry, rest: seq<ArchiveEntry>, path: string)
    ensures Group([first] + rest, path) == (if first.path == path then [first] else []) + Group(rest, path)
    ensures Group([], path) == []
  {
    assert ([first] + rest)[1..] == rest;
  }

  lemma {:induction false} GroupAppend(parts: seq<ArchiveEntry>, part: ArchiveEntry, path: string)
    ensures Group(parts + [part], path) == Group(parts, path) + if part.path == path then [part] else []
  {
    hide Group;
    if parts == [] {
      GroupStep(part, [], path);
      assert parts + [part] == [part] + [];
    } else {
      GroupStep(parts[0], parts[1..], path);
      GroupStep(parts[0], parts[1..] + [part], path);
      assert parts == [parts[0]] + parts[1..] && parts + [part] == [parts[0]] + (parts[1..] + [part]);
      GroupAppend(parts[1..], part, path);
    }
  }

  /** `grouped` lists the fragments of each path of `parts`, in order. */
  ghost predicate GroupedAs(grouped: map<string, seq<ArchiveEntry>>, parts: seq<ArchiveEntry>) {
    grouped.Keys == Paths(parts) && forall path | path in grouped :: grouped[path] == Group(parts, path)
  }

  lemma GroupedMore(grouped: map<string, seq<ArchiveEntry>>, parts: seq<ArchiveEntry>, part: ArchiveEntry)
    requires GroupedAs(grouped, parts)
    ensures GroupedAs(grouped[part.path := (if part.path in grouped then grouped[part.path] else []) + [part]],
                      parts + [part])
  {
    var more := grouped[part.path := (if part.path in grouped then grouped[part.path] else []) + [part]];
    GroupMembers(parts, part.path);
    assert Paths(parts + [part]) == Paths(parts) + {part.path};
    forall path | path in more ensures more[path] == Group(parts + [part], path) {
      GroupAppend(parts, part, path);
    }
  }

  /** The grouping loop. */
  method GroupByPath(parts: seq<ArchiveEntry>) returns (grouped: map<string, seq<ArchiveEntry>>)
    ensures GroupedAs(grouped, parts)
  {
    grouped := map[];
    for i := 0 to |parts|
      invariant GroupedAs(grouped, parts[..i])
    {
      var part := parts[i];
      GroupedMore(grouped, parts[..i], part);
      assert parts[..i + 1] == parts[..i] + [part];
      grouped := grouped[part.path := (if part.path in grouped then grouped[part.path] else []) + [part]];
    }
    assert parts[..|parts|] == parts;
  }

  /** The paths whose sorted fragments can be joined. */
  ghost function JoinablePaths(parts: seq<ArchiveEntry>, sizes: map<int, int>): (paths: set<string>)
    ensures paths <= Paths(parts)
  {
    set path | path in Paths(parts) && Joinable(SortedGroup(parts, path), sizes)
  }

  lemma SortedGroupNonEmpty(parts: seq<ArchiveEntry>, path: string)
    requires path in Paths(parts)
    ensures SortedGroup(parts, path) != []
  {
    GroupMembers(parts, path);
  }

  /** `out` holds exactly the joined entry of each path in `done`, each once. */
  ghost predicate JoinedFor(out: seq<ArchiveEntry>, parts: seq<ArchiveEntry>, sizes: map<int, int>, done: set<string>)
  {
    && done <= JoinablePaths(parts, sizes) && OncePerPath(out)
    && (forall entry | entry in out :: IsJoined(entry, parts, sizes) && entry.path in done)
    && (forall path | path in done :: Has(out, path))
  }

  ghost predicate IsJoined(entry: ArchiveEntry, parts: seq<ArchiveEntry>, sizes: map<int, int>) {
    SortedGroup(parts, entry.path) != [] && entry == Joined(SortedGroup(parts, entry.path), sizes)
  }

  lemma JoinedForMore(out: seq<ArchiveEntry>, parts: seq<ArchiveEntry>, sizes: map<int, int>, done: set<string>,
                      path: string)
    requires path in JoinablePaths(parts, sizes) - done && JoinedFor(out, parts, sizes, done)
    ensures SortedGroup(parts, path) != []
    ensures JoinedFor(out + [Joined(SortedGroup(parts, path), sizes)], parts, sizes, done + {path})
  {
    hide SortedGroup, Joined, Assembled, Joinable;
    JoinedPutTogether(parts, sizes, path);
    var entry := Joined(SortedGroup(parts, path), sizes);
    var more := out + [entry];
    forall i, j | 0 <= i < j < |more| ensures more[i].path != more[j].path {
      assert i < |out| && out[i] in out;
    }
    assert entry in more;
    forall p | p in done + {path} ensures Has(more, p) {
      if p in done {
        var e :| e in out && e.path == p;
        assert e in more;
      }
    }
  }

  lemma JoinedForSorted(out: seq<ArchiveEntry>, parts: seq<ArchiveEntry>, sizes: map<int, int>)
    requires JoinedFor(out, parts, sizes, Paths(parts))
    ensures Aggregated(StableSort.Sort(out, PathLess), parts, sizes)
  {
    hide Assembled, SortedGroup, Joined, Joinable;
    var sorted := StableSort.Sort(out, PathLess);
    forall entry ensures entry in sorted <==> entry in out {
      StableSort.SortMembers(out, PathLess, entry);
    }
    forall entry | entry in sorted ensures Assembled(entry, parts, sizes) {
      JoinedPutTogether(parts, sizes, entry.path);
    }
    forall part | part in parts ensures Has(sorted, part.path) {
      assert part.path in Paths(parts) && Has(out, part.path);
      var entry :| entry in out && entry.path == part.path;
      assert entry in sorted;
    }
    SortedOnce(out);
    PathLessIsOrder();
    StableSort.SortSorts(out, PathLess);
    forall i, j | 0 <= i < j < |sorted| ensures Text.NotBehind(sorted[i].path, sorted[j].path) {
      Text.NotBehindExactly(sorted[i].path, sorted[j].path);
    }
  }

  predicate OtherPath(a: ArchiveEntry, b: ArchiveEntry) { a.path != b.path }

  lemma SortedOnce(out: seq<ArchiveEntry>)
    requires OncePerPath(out)
    ensures OncePerPath(StableSort.Sort(out, PathLess))
  {
    StableSort.SortPairwise(out, PathLess, OtherPath);
    assert StableSort.Pairwise(out, OtherPath);
    var sorted := StableSort.Sort(out, PathLess);
    forall i, j | 0 <= i < j < |sorted| ensures sorted[i].path != sorted[j].path {
      assert OtherPath(sorted[i], sorted[j]);
    }
  }

  lemma PathLessIsOrder()
    ensures StableSort.StrictWeakOrder(PathLess)
  {
    forall a, b | PathLess(a, b) ensures !PathLess(b, a) {
      Text.LessAsymmetric(Text.ToLower(a.path), Text.ToLower(b.path));
    }
    forall a, b, c | !PathLess(a, b) && !PathLess(b, c) ensures !PathLess(a, c) {
      Text.NotLessTransitive(Text.ToLower(a.path), Text.ToLower(b.path), Text.ToLower(c.path));
    }
  }

  /** The reassembly succeeds exactly when there are fragments and they are acceptable; the result is then one
      entry for each file, put together from its fragments. Files are visited in no particular order, as the
      program ranges over a map. */
  method AggregateRARVolumeEntries(parts: seq<ArchiveEntry>, sizes: map<int, int>)
      returns (result: Option<seq<ArchiveEntry>>)
    ensures result.Some? <==> parts != [] && Acceptable(parts, sizes)
    ensures result.Some? ==> Aggregated(result.value, parts, sizes)
  {
    hide Acceptable, Aggregated, JoinedFor, JoinablePaths, Paths;
    AcceptableExactly(parts, sizes);
    if |parts| == 0 {
      return None;
    }
    var grouped := GroupByPath(parts);
    var out := JoinGroups(parts, sizes, grouped);
    if out.None? {
      return None;
    }
    JoinedForSorted(out.value, parts, sizes);
    result := Some(StableSort.Sort(out.value, PathLess));
  }

  /** Sort one group, join it and add the result; `todo` are the paths not yet joined. */
  method JoinGroup(ghost parts: seq<ArchiveEntry>, sizes: map<int, int>, grouped: map<string, seq<ArchiveEntry>>,
                   path: string, out: seq<ArchiveEntry>, ghost todo: set<string>)
    returns (more: Option<seq<ArchiveEntry>>)
    requires GroupedAs(grouped, parts) && todo <= Paths(parts) && path in todo
    requires JoinedFor(out, parts, sizes, Paths(parts) - todo)
    ensures more.Some? <==> path in JoinablePaths(parts, sizes)
    ensures more.Some? ==> JoinedFor(more.value, parts, sizes, Paths(parts) - (todo - {path}))
  {
    SortedGroupNonEmpty(parts, path);
    var entry := JoinParts(StableSort.Sort(grouped[path], PartLess), sizes);
    if entry.None? {
      return None;
    }
    JoinedForMore(out, parts, sizes, Paths(parts) - todo, path);
    assert Paths(parts) - (todo - {path}) == (Paths(parts) - todo) + {path};
    more := Some(out + [entry.value]);
  }

  lemma JoinedForNothing(parts: seq<ArchiveEntry>, sizes: map<int, int>, grouped: map<string, seq<ArchiveEntry>>)
    requires GroupedAs(grouped, parts)
    ensures grouped.Keys == Paths(parts) && JoinedFor([], parts, sizes, Paths(parts) - grouped.Keys)
  {
    assert Paths(parts) - grouped.Keys == {};
  }

  /** The loop over the groups. */
  method JoinGroups(ghost parts: seq<ArchiveEntry>, sizes: map<int, int>, grouped: map<string, seq<ArchiveEntry>>)
    returns (result: Option<seq<ArchiveEntry>>)
    requires GroupedAs(grouped, parts)
    ensures result.Some? <==> JoinablePaths(parts, sizes) == Paths(parts)
    ensures result.Some? ==> JoinedFor(result.value, parts, sizes, Paths(parts))
  {
    hide JoinedFor, JoinablePaths, GroupedAs, Paths;
    var out: seq<ArchiveEntry> := [];
    var todo := grouped.Keys;
    JoinedForNothing(parts, sizes, grouped);
    while todo != {}
      invariant todo <= Paths(parts) <= JoinablePaths(parts, sizes) + todo
      invariant JoinedFor(out, parts, sizes, Paths(parts) - todo)
      decreases todo
    {
      var path :| path in todo;
      var more := JoinGroup(parts, sizes, grouped, path, out, todo);
      if more.None? {
        return None;
      }
      out := more.value;
      todo := todo - {path};
    }
    assert Paths(parts) - {} == Paths(parts);
    result := Some(out);
  }
}
