# Drakkar: a verified model of the virtual-file engine and its stateful services

Drakkar serves media files that exist only as many small Usenet articles. This project models the parts
of it where a wrong index, a lost update or a skipped row would be visible to a viewer or an operator,
and proves what they promise. `dafny verify dfyconfig.toml` checks everything.

## What is modelled

**The virtual-file layout engine.** A playable file is a list of ranges in archive volumes; a volume is a list
of fixed-size decoded articles. The meaning of a span table is the byte string it reads from an article store
(`SpanLayout.ReadAll`). `SpanLayout` holds the span builder for one volume, truncation and the reader's
validity test; `StoredRar` the builder over many volumes; `StoredRarRebuild` the walk that rebuilds ranges
when the persisted ones fall short; `StoredRarOvershoot` the clipping of ranges that supply too much;
`StoredRarLoad` the loader's decision, the last-span correction and the cache of layouts, and `VfCacheRace`
several loads and a calibration at once. `VolumeNames` says which volume a path means, and `StoredRarBytes`
which bytes of which volumes a loaded file consists of. `StoredRarReader` is the reader that corrects its
table while it reads; `StoredRarHealing` says what that does to table and bytes, `StoredRarDrift` where the
bytes come from when spans are wrong about where their articles begin, `StoredRarStops` where and why a read
stops, and `StoredRarServing` what all this does to the layouts the loader makes. `DirectNzb` has the
calibrated size of a directly posted file. `ArchiveRanges`, `Aggregation`, `SevenZip` and `RangeAgreement`
hold the import side: assigning, joining and splitting ranges, and the agreement of the separately written
walks.

**Byte formats.** `Rar5` has the variable-length integers and both block walkers of the RAR 5.0 archive format
(technical note, "Data types" and "General archive block format"), with a writer used to state what the
walkers must find; `Rar5Files` the parser of one file header, `Rar5Inspect` the inspection, and `Rar5Writing`
what both find in a volume written by the format's rules. `MessageIds` has the packed message-ID codec over an
abstract lossless compressor.

**Shared state.** `LoginThrottle` is a class whose ghost sets of issued and live attempts pin every counter,
and whose ghost history of logins and verdicts pins every entry. `SingleFlight` and `SegmentCheck` are
protocols of concurrent callers and workers: a step is one critical section or one access outside it, and the
theorems hold after every run. `ByteLru` is one cache shard with its elements on the heap; `FileIndex` and
`FileCache` are the disk cache, its locked sections and its file operations. Both caches are proved against
the functional list in `Lru`.

**The resumable sweep.** `Sweep` is the checkpoint protocol shared by the deep-health sweep and the
archive-range repair sweep, with crashes between any two steps, writes that fail with or without effect, rows
that come and go, and damage to the stored checkpoint. `SweepRuns` proves the laws of whole runs.
`SweepService` is the loop code, every operation of which is a step of that protocol.

`Bytes`, `Base128`, `Machine`, `StableSort`, `Text` and `FiniteSets` are small supporting modules.

## What the proofs found

- `computeSpans` past a short last segment: a start offset behind the last article's bytes gives a span of
  negative length (`SpanLayout.SpansNegativeLength`); `SpansTileExactly` says exactly when it does not.
- The loader can return a layout that is none, when the broken range does not change the total
  (`StoredRarLoad.BrokenLayoutExample`, exactly when in `LoadedTilesExactly`).
- The last-span correction can leave an empty last span; the reader then refuses the whole layout unless it
  was the only span (`StoredRarLoad.EmptiedLastSpanExample`, exactly when in `VerifiedAcceptedExactly`).
- Clipping a layout does not mark the clipped span, so the first read that gets to its end makes the file
  longer than recorded (`StoredRarServing.ClippedGrowsExample`, exactly when in `ClippedReadsExactly`).
- A span that is wrong about where its article begins serves shifted bytes and nothing notices, unless a read
  runs off the article. Correcting one span's length leaves the next one's position uncorrected
  (`StoredRarServing.DriftExample`, exactly when in `StoredRarHealing.PassesExactly`, and by how much for the
  bytes of whole reads in `StoredRarDrift.ReadFinds`).
- A load that overlaps a calibration can put the old entry back into the emptied cache
  (`VfCacheRace.StaleExample`, exactly when in `StaleExactly`).
- RAR5 inspection slices out of bounds on an encryption header whose general fields run past its end
  (`Rar5Inspect.CrashExample`), and a rejection can change with more data, because the type of an extra record
  may be read past the header (`Rar5Inspect.WaveringExample`); both with their exact conditions.
- A stored message-ID count that is too large makes the decoder panic (`MessageIds.PanicsExactly`).
- Rounding within 16 bytes can map bytes past the end of the last volume, or swallow the last range
  (`ArchiveRanges.RoundingExamples`, with the exact conditions beside it).
- An empty volume between two used ones is skipped by `splitArchiveRange` but stops `assignArchiveRanges`
  (`SevenZip.EmptyVolumeExample`, exactly when in `SplitAgreesWithAssign`).
- A refused shrink records a size larger than what the spans cover (`DirectNzb.RefusedShrinkExample`, exactly
  when in `CalibratedCoverage`).
- Pruning keeps entries in backoff without assuming a monotone clock (`LoginThrottle.PruneKeepsBlocked`).
- A put and a remove of one key leave the disk cache's index and its directory apart unless the put lists
  before the remove forgets or moves after it has erased (`FileIndex.PutAndRemoveExactly`, any number of them
  in `InterleavingAgreesExactly`); so do two puts that share their temporary file (`SharedTempDrifts`), and so
  does a put whose temporary file was left behind by an earlier process and indexed
  (`FileCache.LeftoverTempDrifts`).

## Model

| member | source | states |
|---|---|---|
| SpanLayout.SpanFileSize | internal/database/content_repository.go:1101-1109 | the loop returns the largest end of any span, 0 for an empty table |
| SpanLayout.FileSizeIsMaximum | internal/database/content_repository.go:1101-1109 | the file size bounds every span's end and some span reaches it unless it is 0 |
| SpanLayout.TilesFileSize | internal/database/content_repository.go:1101-1109 | the file size of a gapless layout is where the layout ends |
| SpanLayout.ValidateStoredRarSpans | internal/stream/stored_rar_reader.go:392-413 | the reader accepts exactly the gapless layouts of [0, size), and anything when the size is 0 |
| SpanLayout.TruncateSpans | internal/database/content_repository.go:1113-1125 | the loop clips the table to the requested size |
| SpanLayout.TruncatedTiles | internal/database/content_repository.go:1113-1125 | clipping a gapless layout at an inner point gives the gapless layout up to that point |
| SpanLayout.TruncatedReads | internal/database/content_repository.go:1113-1125 | the clipped table reads exactly the first bytes of what the whole table reads |
| SpanLayout.ComputeSpans | internal/database/content_repository.go:23-68 | the loop produces the specified span table for every offset and every article size on which it does not ask for a message ID before the first; bytes before the file's beginning do not count |
| SpanLayout.FirstSegment | internal/database/content_repository.go:34-44 | the first span belongs to the segment that holds the entry's first byte |
| SpanLayout.StartsInsideTotal | internal/database/content_repository.go:23-68 | with 0 < last <= decoded (or last <= 0) every start below the decoded total is inside the file |
| SpanLayout.SpansTile | internal/database/content_repository.go:23-68 | a non-empty entry that starts inside the file gets spans tiling [0, min(size, total - offset)) |
| SpanLayout.SpansTileExactly | internal/database/content_repository.go:23-68 | the table is gapless if and only if the arguments start inside the file or lay out nothing |
| SpanLayout.SpansMisplaced | internal/database/content_repository.go:23-68 | on all other arguments the first span is empty or of negative length |
| SpanLayout.SpansNegativeLength | internal/database/content_repository.go:23-68 | a concrete start past the short last segment yields a span of negative length |
| SpanLayout.SpansTruncatedFlag | internal/database/content_repository.go:23-68 | EntryTruncated is set on the final span only, exactly when the entry ends inside that segment |
| SpanLayout.SpansSupply | internal/database/content_repository.go:23-68 | every position p of a span is decoded byte offset + p of the posted file |
| SpanLayout.SpansRead | internal/database/content_repository.go:23-68 | reading the whole table from the articles gives the entry's slice of the decoded file |
| StoredRar.BuildStoredRarSpans | internal/database/content_repository.go:101-152 | the nested loops produce the specified table: sort by entry offset, skip missing volumes, place and number |
| VolumeNames.KeysEqualExactly | internal/database/content_repository.go:120 | two volume paths mean the same source if and only if they agree letter by letter up to case, without the white space around them |
| VolumeNames.KeyIsStored | internal/database/content_repository.go:943-955 | a key is its own key, in lower case with no white space around it; a name in that form is its own key |
| VolumeNames.FindsExactly | internal/database/content_repository.go:120 | a path finds the source stored under a name if and only if it is that name up to case and surrounding white space |
| StoredRar.StoredRarTiles | internal/database/content_repository.go:101-152 | if every range lays out in its volume, the spans tile [0, their total) and are numbered 0, 1, 2, ... even with drifted entry offsets or missing volumes |
| StoredRar.StoredRarGaplessExactly | internal/database/content_repository.go:101-152 | the table is gapless if and only if every range lays out |
| StoredRar.StoredRarReads | internal/database/content_repository.go:101-152 | reading the table end to end gives the ranges' bytes one after another in entry order |
| StoredRar.ContiguousTiles | internal/database/content_repository.go:101-152 | contiguous ranges inside their volumes give a layout of exactly the sum of their lengths |
| StoredRar.ContiguousReads | internal/database/content_repository.go:101-152 | bytes [entryOffset, entryOffset + length) of the file are bytes [archiveOffset, archiveOffset + length) of the range's volume |
| StoredRarBytes.RearrangedReads | internal/database/content_repository.go:101-152 | in whatever order the rows list contiguous ranges, and however they spell their volumes, the table reads at each range's entry offset the bytes of the volume stored under that name, from its archive offset on, and nothing else |
| StoredRarRebuild.SourceSizeIsTotal | internal/database/content_repository.go:157-175 | the claimed size of a volume with segments is what the span builder can supply from it |
| StoredRarRebuild.ReconstructStoredRarRanges | internal/database/content_repository.go:183-245 | the walk from the start volume produces the specified ranges, or nothing |
| StoredRarRebuild.ReconstructedLayout | internal/database/content_repository.go:183-245 | a rebuilt layout is contiguous from 0, adds up to the entry size, and keeps every range inside its volume |
| StoredRarRebuild.ReconstructedTiles | internal/database/content_repository.go:1002-1019 | with segment data, spans built from a rebuilt layout tile exactly the entry, so the size comparison after it passes |
| StoredRarRebuild.ReconstructedExactly | internal/database/content_repository.go:183-245 | the rebuild gives nothing if and only if no run of known volumes with room past their start offsets adds up to the entry size |
| StoredRarRebuild.WithinLaysOut | internal/database/content_repository.go:157-175 | a range inside its volume's claimed size always lays out, even for a volume without segment data |
| StoredRarLoad.LoadStoredRarSpansUncorrected | internal/database/content_repository.go:965-1028 | the three-way decision: exact, truncate an overshoot, rebuild an undershoot with measured then assumed offsets |
| StoredRarLoad.TryRebuild | internal/database/content_repository.go:1002-1019 | rebuild the ranges and keep the layout only when its size is the file's size |
| StoredRarLoad.RebuiltTiles | internal/database/content_repository.go:1002-1019 | a rebuilt layout tiles exactly [0, size) whatever the persisted ranges were |
| StoredRarLoad.LoadedTilesExactly | internal/database/content_repository.go:965-1028 | a non-empty layout tiles exactly [0, size) if and only if the persisted ranges lay out where they are used: all of them on an exact fit, those that begin inside the file on an overshoot; a rebuilt layout always does |
| StoredRarLoad.BrokenLayoutExample | internal/database/content_repository.go:965-971 | a second range behind its volume's end: the spans add up to the recorded size and are returned although they are no layout |
| StoredRarOvershoot.ClippedTilesExactly | internal/database/content_repository.go:965-977 | the clipped table is the layout of [0, size) if and only if every range that begins before size lays out in its volume |
| StoredRarOvershoot.ClippedToNothing | internal/database/content_repository.go:1113-1125 | clipping to a size of 0 or less leaves no spans |
| StoredRarOvershoot.ClippedNonEmpty | internal/database/content_repository.go:1113-1125 | clipping a table that supplies bytes to a positive size never leaves it empty |
| StoredRarLoad.RebuiltWheneverReconstructed | internal/database/content_repository.go:1002-1019 | with segment data for every volume, a successful rebuild is never thrown away by the size check |
| StoredRarLoad.LoadedGivesUpExactly | internal/database/content_repository.go:965-1028 | the loader returns no layout for a non-empty file if and only if the ranges fall short and neither rebuild covers it |
| StoredRarBytes.PersistedServes | internal/database/content_repository.go:965-977 | when the persisted ranges cover the file or more, the layout reads their bytes, cut at the size |
| StoredRarBytes.ShortServes | internal/database/content_repository.go:979-1028 | when they fall short, the layout reads the bytes behind the first range's offset in its volume, then those behind the measured offset in each later volume, cut at the size, if that suffices; otherwise the same with offset 0, if that suffices; and otherwise there is no layout |
| StoredRarLoad.VerifyLastSpanBoundary | internal/database/content_repository.go:826-866 | the correction of the last span against the probed article |
| StoredRarLoad.VerifiedShrinks | internal/database/content_repository.go:826-866 | only the last span changes and it only shrinks; the file size becomes its new end |
| StoredRarLoad.VerifiedAcceptedExactly | internal/database/content_repository.go:826-866 | the reader accepts the corrected layout if and only if the probe left the last of several spans something |
| StoredRarLoad.EmptiedLastSpanExample | internal/database/content_repository.go:826-866 | a probe that finds the last article empty leaves a file the reader refuses |
| StoredRarLoad.VerifiedReadable | internal/database/content_repository.go:826-866 | after a truthful probe every span has as many bytes behind it as it claims |
| StoredRarLoad.VfCache.Load | internal/database/content_repository.go:685-767 | a hit returns the cached entry and changes nothing; a miss computes the entry of its reader kind and remembers it alone |
| VfCacheRace.StaleExactly | internal/database/content_repository.go:685-767 | after calibration has emptied the cache, later loads leave a stale entry if and only if the last one to store had read the old rows before |
| VfCacheRace.StaleExample | internal/database/content_repository.go:685-767 | one load that computes before and stores behind a calibration is enough, and every later load gets the old entry |
| StoredRarLoad.EntryServable | internal/database/content_repository.go:728-741 | with persisted ranges that lay out, a cached stored_rar entry has the size its spans imply, at most the recorded one, and is accepted exactly when the probe did not empty the last of several spans |
| StoredRarBytes.DirectServes | internal/database/content_repository.go:743-752 | an entry without a stored_rar layout reads the posted file's decoded bytes from the row's byte offset on, as many as the row says or as there are |
| StoredRarReader.FindStoredRarSpan | internal/stream/stored_rar_reader.go:326-334 | inside a gapless layout every offset is found, in the one span that covers it |
| StoredRarReader.Reader.ReadAt | internal/stream/stored_rar_reader.go:92-250 | the read loop terminates, stalls and corrections included, and bytes, new table and ending are those of the specified read |
| StoredRarReader.Reader.Realign | internal/stream/stored_rar_reader.go:283-324 | the correction of one span publishes the specified table, and nothing happens exactly when the span is what its article says |
| StoredRarReader.RealignedTilesExactly | internal/stream/stored_rar_reader.go:283-324 | a correction keeps the table a layout from the same beginning if and only if it leaves the span something |
| StoredRarReader.PublishedExactly | internal/stream/stored_rar_reader.go:283-324 | the reader keeps serving after a correction if and only if it left the span something or the span was the whole file; the size changes by what the span does |
| StoredRarReader.LooseRealigned | internal/stream/stored_rar_reader.go:283-324 | every correction leaves one wrong span less, so reads terminate |
| StoredRarHealing.LeftAloneExactly | internal/stream/stored_rar_reader.go:117-249 | a read leaves the table alone if and only if no share it gets to calls for a correction |
| StoredRarHealing.ReadServes | internal/stream/stored_rar_reader.go:117-249 | every returned byte is what the table left behind says of its position: always if the read changes nothing, otherwise if the spans know where their articles begin; all other reads are in StoredRarDrift.ReadFinds |
| StoredRarHealing.SpansKept | internal/stream/stored_rar_reader.go:283-324 | a read changes no span that ends before it begins |
| StoredRarHealing.SecondReadLeavesAlone | internal/stream/stored_rar_reader.go:252-324 | after a read that got all its bytes the same read leaves the table alone |
| StoredRarHealing.PassesExactly | internal/stream/stored_rar_reader.go:189-213 | a fetch goes unquestioned if and only if the article has bytes at all places asked for and none the span should have had; the bytes are off by exactly the span's error about the article's position; StoredRarDrift.ReadFinds says so of whole reads |
| StoredRarStops.StoppedExactly | internal/stream/stored_rar_reader.go:117-249 | a read gets all its bytes and says so, or stops at the first position it has no byte for and says why: layout gone, end of file, article not to be fetched, nothing there, or too little; the last two only at articles that do not say where they begin |
| StoredRarStops.CallStops | internal/stream/stored_rar_reader.go:92-250 | the same for a whole call, bad offsets and end-of-file included |
| StoredRarServing.ClosedReads | internal/stream/stored_rar_reader.go:92-250 | over articles as calibrated a read returns exactly its part of the file, reports end-of-file exactly when that is less than asked, and changes nothing |
| StoredRarServing.ClippedReadsExactly | internal/stream/stored_rar_reader.go:189-213 | reading a layout clipped to the recorded size returns the right bytes, and makes the file longer than recorded if and only if the read gets to the end and the clip falls inside a span that is not entry-truncated |
| StoredRarServing.ClippedGrowsExample | internal/database/content_repository.go:1113-1125 | a ten-byte article clipped to eight bytes: the first read of the end makes the file ten bytes long |
| StoredRarDrift.ReadFinds | internal/stream/stored_rar_reader.go:117-249 | every byte a read returns, from any table and whatever it corrects on the way, stands exactly as far off the place its span means as the span was wrong when it was fetched, growing shares included |
| StoredRarDrift.CallFinds | internal/stream/stored_rar_reader.go:92-250 | the same for every call of the reader: it never returns a byte from any other place |
| StoredRarServing.DriftExample | internal/stream/stored_rar_reader.go:283-324 | two reads in a row: the first finds two bytes more in its article and moves the next span along, the second returns the next article's bytes two places off and leaves the table alone |
| StoredRarServing.GrowthExample | internal/stream/stored_rar_reader.go:283-324 | two articles laid end to end: the first has two bytes more than assumed, and a read across its end splices them in and makes the file two bytes longer |
| StoredRarServing.StoredRarClosed | internal/database/content_repository.go:101-152 | a table built from ranges that lay out, over calibrated volumes, gives the reader nothing to correct, and its IDs tell its spans apart |
| StoredRarServing.ContiguousServes | internal/database/content_repository.go:101-152 | from ranges to bytes: every read of the table built from contiguous ranges inside calibrated volumes returns exactly the bytes the ranges name |
| DirectNzb.CalibratedCoverage | internal/database/calibrate.go:809-827 | the spans for the calibrated size cover exactly the measured bytes; the recorded size differs from them exactly in the refused-shrink branch, where it is larger |
| DirectNzb.RefusedShrinkExample | internal/database/calibrate.go:809-827 | two articles of ten bytes declared as a hundred are recorded as a hundred and cover twenty |
| ArchiveRanges.HasCompleteArchiveMapping | internal/database/archive_inspect.go:1335-1355 | the loop accepts exactly the entries whose positive ranges cover [0, packed size) without gap |
| ArchiveRanges.AssignArchiveRanges | internal/database/archive_inspect.go:1271-1313 | every entry of the array is updated in place to the outcome of its walk |
| ArchiveRanges.WalkEntry | internal/database/archive_inspect.go:1277-1311 | the inner loop terminates and yields the walk's ranges, or none |
| ArchiveRanges.AssignedComplete | internal/database/archive_inspect.go:1271-1313 | a walked entry has either no ranges or a complete mapping with every range inside its volume |
| ArchiveRanges.CheckPart | internal/database/archive_inspect.go:545-572 | a fragment's contribution, or the reason to reject the file |
| ArchiveRanges.JoinParts | internal/database/archive_inspect.go:518-611 | the fragments of one file are joined exactly when each fits behind the one before |
| ArchiveRanges.JoinedShape | internal/database/archive_inspect.go:518-611 | range k sits in fragment k's volume at the running sum, with min(header size, volume room) bytes; only the last is adjusted, by at most 16 |
| ArchiveRanges.JoinedConserves | internal/database/archive_inspect.go:518-611 | the range lengths add up to PackedSizeBytes; a stored entry with a declared size ends with SizeBytes equal to it |
| ArchiveRanges.JoinedVolumesIncrease | internal/database/archive_inspect.go:545-572 | the ranges visit strictly increasing volumes |
| ArchiveRanges.JoinedCompleteExactly | internal/database/archive_inspect.go:580-604 | the joined entry is completely mapped if and only if rounding does not swallow the last fragment |
| ArchiveRanges.JoinedCompleteWhenLong | internal/database/archive_inspect.go:580-604 | a last fragment of more than 16 bytes always leaves the entry completely mapped |
| ArchiveRanges.JoinedLastInVolumeExactly | internal/database/archive_inspect.go:580-604 | the last range ends inside its volume if and only if the rounding fits the room left there, and never more than 16 bytes past it |
| ArchiveRanges.RoundingExamples | internal/database/archive_inspect.go:580-604 | concrete fragments whose rounding maps bytes the volume lacks, and ones whose last range is swallowed |
| Aggregation.GroupByPath | internal/database/archive_inspect.go:522-525 | the grouping loop gathers each path's fragments in their original order |
| Aggregation.AggregateRARVolumeEntries | internal/database/archive_inspect.go:518-611 | succeeds exactly when there are fragments, each has bytes to give, and no two of one file are in one volume or of different kinds; the result is one entry for each file, put together from exactly its fragments, ordered by path whatever its case |
| Aggregation.AcceptableExactly | internal/database/archive_inspect.go:527-572 | every file's sorted fragments can be joined if and only if the unsorted list is acceptable: the sort puts any fragments in different volumes in volume order |
| Aggregation.GroupPutTogether | internal/database/archive_inspect.go:534-605 | a joined entry has the path, method and flags of every fragment of its file, begins where its first range does, lists one range for each fragment in the order of volumes, each as long as the fragment gives, and reconciles their sum with the largest declared size |
| RangeAgreement.AssignAgreesWithReconstruct | internal/database/content_repository.go:183-245 | the load-time walk and the import-time walk give the same ranges, or both fail, on corresponding volumes |
| RangeAgreement.WalksAgree | internal/database/archive_inspect.go:1271-1313 | the same from any volume, offset and remaining size on |
| SevenZip.FolderOffset | internal/database/archive_inspect_7z.go:272-294 | reports pack position plus preceding pack streams if and only if those exist and the sum is an int64; no step wraps |
| SevenZip.SplitArchiveRange | internal/database/archive_inspect_7z.go:301-352 | succeeds if and only if the interval is representable and inside the usable volumes; every range is then placed; no step wraps |
| SevenZip.VolumeShare | internal/database/archive_inspect_7z.go:322-336 | one volume's share of the file, empty exactly for an empty volume |
| SevenZip.SplitCovers | internal/database/archive_inspect_7z.go:301-352 | the ranges are a complete mapping of [0, size) |
| SevenZip.SplitLocates | internal/database/archive_inspect_7z.go:301-352 | byte p of the file is byte archiveOffset + p of the volumes taken in order |
| SevenZip.SplitAssignedExactly | internal/database/archive_inspect_7z.go:301-352 | the RAR walk reproduces the split ranges if and only if they sit in consecutive volumes |
| SevenZip.SplitAgreesWithAssign | internal/database/archive_inspect.go:1271-1313 | re-assigning a split entry reproduces it if and only if no empty volume lies inside its interval of the archive; otherwise the entry gets no ranges |
| SevenZip.ConsecutiveExactly | internal/database/archive_inspect_7z.go:301-352 | the split visits consecutive volumes if and only if no empty volume lies inside the interval |
| SevenZip.EmptyVolumeExample | internal/database/archive_inspect_7z.go:301-352 | volumes of 10, 0 and 10 bytes: the split skips the second and the RAR walk gives up there |
| SevenZip.EntryFor | internal/database/archive_inspect_7z.go:201-245 | only a folder with the copy coder alone is accepted, and then exactly when place and interval are defined, representable and covered; other folders are reported as encrypted or compressed |
| Rar5.ReadVint | internal/database/archive_inspect.go:776-791 | the loop reads the specified integer and length, or fails |
| Rar5.VintRoundTrip | internal/database/archive_inspect.go:776-791 | reading inverts base-128 encoding for every value below 2^56, whatever follows |
| Rar5.VintBounds | internal/database/archive_inspect.go:776-791 | what was read lies inside the data, takes at most eight bytes and is below 2^56 |
| Rar5.VintStable | internal/database/archive_inspect.go:776-791 | more data behind a complete integer does not change it |
| Rar5.BlockStable | internal/database/archive_inspect.go:863-913 | a block header that parses on a prefix parses the same on the whole |
| Rar5.BlocksGrow | internal/database/archive_inspect.go:845-999 | a longer prefix parses to the same blocks first |
| Rar5.FindDataStart | internal/database/archive_inspect.go:408-459 | the walk terminates with the end of the first file header, or nothing |
| Rar5.DataStartStable | internal/database/archive_inspect.go:408-459 | a data start d found on a prefix has 8 < d <= its length and is the data start of every extension |
| Rar5Inspect.InspectRar5 | internal/database/archive_inspect.go:845-999 | the walk terminates with the specified answer, the out-of-bounds slice included |
| Rar5Inspect.WalksAgree | internal/database/archive_inspect.go:408-459 | both walks agree on the first file header, and find nothing together when no encryption header intervenes |
| Rar5Inspect.WalkGrows | internal/database/archive_inspect.go:845-999 | a longer prefix visits the same headers first and stops at the same encryption header |
| Rar5Inspect.RejectionFinalExactly | internal/database/archive_inspect.go:845-999 | a rejection found on a prefix is the answer for every extension if and only if its file is encrypted already or its extra area is not cut inside a record type that may still become 1 |
| Rar5Inspect.RejectionGrows | internal/database/archive_inspect.go:957-984 | on an extension a rejection stays, or the deciding file turns out to be encrypted |
| Rar5Inspect.WaveringExample | internal/database/archive_inspect.go:1085-1096 | a solid video whose extra area is one byte: with one more data byte of 1 the archive counts as encrypted |
| Rar5Inspect.CrashExactly | internal/database/archive_inspect.go:916-920 | the program slices out of bounds if and only if the walk gets to an encryption header whose general fields run past its end, with no rejected video before it |
| Rar5Inspect.CrashExample | internal/database/archive_inspect.go:916-920 | the signature and seven bytes that make it happen |
| Rar5Files.ParseFileHeader | internal/database/archive_inspect.go:1005-1149 | the parser of one file header, its extra-area walk included, yields the specified reading |
| Rar5Files.ScanExtra | internal/database/archive_inspect.go:1080-1131 | the walk over the extra area terminates and finds an encryption record exactly when one is reached |
| Rar5Files.FieldsStable | internal/database/archive_inspect.go:1005-1071 | the fields read the same on every extension: none is read past the header |
| Rar5Files.ScanGrows | internal/database/archive_inspect.go:1080-1131 | more data decides nothing new about an extra area unless the walk was cut inside a record type |
| Rar5Files.CanBecomeOneExactly | internal/database/archive_inspect.go:1085-1096 | a cut record type can still become 1 if and only if it has no digit yet or a 1 and zeros so far |
| Rar5Files.ParsedGrows | internal/database/archive_inspect.go:1005-1149 | on an extension a header reads the same, or it is a file that turns out to be encrypted |
| Rar5Writing.FieldsRead | internal/database/archive_inspect.go:1005-1071 | a file header written by the format's rules is read back field by field: directory flag, size, solid flag, packing method and name |
| Rar5Writing.RecordsRead | internal/database/archive_inspect.go:1080-1131 | the walk over a written extra area finds encryption if and only if one of the records is an encryption record |
| Rar5Writing.FileReads | internal/database/archive_inspect.go:1005-1149 | a written file header gives name, size, solid and encrypted flags, stored exactly for method 0, and the place and length of the data behind it |
| Rar5Writing.WrittenRejected | internal/database/archive_inspect.go:957-984 | on a written volume the first video that cannot be played as it stands decides: encrypted before solid before compressed |
| Rar5Writing.WrittenAccepted | internal/database/archive_inspect.go:988-999 | on a written volume whose videos can all be played the files are listed as they were written, with or without a video among them; none at all is invalid, and an encryption header rejects |
| Rar5.BlockReads | internal/database/archive_inspect.go:863-913 | a block header written by the format's rules is read back field by field |
| Rar5.VolumeReads | internal/database/archive_inspect.go:845-999 | any volume of signature and writable blocks is read back block by block, whatever follows |
| Rar5.WrittenDataStart | internal/database/archive_inspect.go:408-459 | for such a volume the data start is where the first file block's data was written |
| MessageIds.ReadUvarint | internal/database/message_ids.go:43-56 | the base-128 reader with its overflow and truncation results |
| MessageIds.AppendUvarint | internal/database/message_ids.go:15-30 | the base-128 writer appends the encoding |
| MessageIds.UvarintRoundTrip | internal/database/message_ids.go:15-65 | reading inverts writing for every 64-bit value, whatever follows |
| MessageIds.UvarintCut | internal/database/message_ids.go:43-56 | an integer cut short anywhere is reported as cut short |
| MessageIds.UvarintFailsExactly | internal/database/message_ids.go:43-56 | the bytes run out exactly when ten or fewer are left and all go on; the value overflows exactly when the tenth byte stands for more than one bit or goes on into an eleventh |
| MessageIds.PackMessageIds | internal/database/message_ids.go:15-30 | nothing for an empty list, otherwise the compressed body of count, lengths and strings |
| MessageIds.UnpackMessageIds | internal/database/message_ids.go:32-65 | the legacy fallback, decompression and body decoding with their errors and the panic on an impossible count |
| MessageIds.DecodeBody | internal/database/message_ids.go:43-64 | the reslicing loop decodes the body, fails, or panics on an impossible count |
| MessageIds.PackRoundTrip | internal/database/message_ids.go:15-65 | unpacking what was packed gives the list back, for every non-empty list that fits in memory |
| MessageIds.RowRoundTrip | internal/database/message_ids.go:15-65 | for every list, the empty one included, what a row stores comes back, from the packed or from the legacy column |
| MessageIds.FormatExample | internal/database/message_ids.go:15-30 | the packed format byte by byte, for a string longer than one length byte can say |
| MessageIds.BodyExact | internal/database/message_ids.go:43-64 | a body is consumed exactly: every proper prefix and every extension is rejected |
| MessageIds.PanicsExactly | internal/database/message_ids.go:43-48 | the program panics exactly on bodies that claim more strings than it can make room for |
| MessageIds.PanicExample | internal/database/message_ids.go:43-48 | ten bytes are enough to make it panic |
| LoginThrottle.WithDefaults | internal/api/login_throttle.go:54-94 | non-positive settings fall back to defaults and the result is sound |
| LoginThrottle.KeysFor | internal/api/login_throttle.go:254-264 | two different non-empty table keys, one per address and one per account |
| LoginThrottle.SharedKeysExactly | internal/api/login_throttle.go:254-264 | two logins share the account key if and only if their names agree up to case and surrounding white space, and the address key if and only if the addresses are the same or both unknown |
| LoginThrottle.Backoff | internal/api/login_throttle.go:190-202 | the doubling loop equals min(max, base * 2^max(0, failures - threshold)) without leaving int64 |
| LoginThrottle.BackoffMonotone | internal/api/login_throttle.go:190-202 | more failures never mean a shorter wait; the wait stays between base and max |
| LoginThrottle.PruneExpired | internal/api/login_throttle.go:204-210 | removes exactly the idle entries unseen for the time-to-live |
| LoginThrottle.PruneKeepsBlocked | internal/api/login_throttle.go:204-210 | with entryTTL >= maxBackoff no entry in backoff is pruned, even if the clock runs backwards |
| LoginThrottle.PrunedExactly | internal/api/login_throttle.go:204-210 | pruning drops an entry if and only if no login is open under its key and nothing happened under it for the time-to-live |
| LoginThrottle.EvictionVictim | internal/api/login_throttle.go:212-243 | a minimum of (blocked, lastSeen) among idle unprotected entries, whatever the map order |
| LoginThrottle.EnsureCapacity | internal/api/login_throttle.go:212-243 | succeeds exactly when the entries that cannot be evicted leave room; evicts in order and no more than needed |
| LoginThrottle.EvictedLast | internal/api/login_throttle.go:212-243 | an entry in backoff is evicted only when no other that could go is left, and of two alike the one seen last stays |
| LoginThrottle.WaitZeroExactly | internal/api/login_throttle.go:112-127 | the caller need not wait if and only if no key is in backoff or at its own limit |
| LoginThrottle.WaitIsLongest | internal/api/login_throttle.go:112-127 | the wait covers every key's backoff and, at a limit, the busy retry, and is one of these |
| LoginThrottle.Throttle.Begin | internal/api/login_throttle.go:98-149 | admits exactly when global slots, waits and capacity allow; states the whole new state; never admits a key in backoff; keeps every counter equal to the unfinished attempts holding it and within its limit |
| LoginThrottle.LoginAttempt.Finish | internal/api/login_throttle.go:154-188 | gives the slot back and records the verdict once; a second call changes nothing |
| LoginThrottle.FinishedTells | internal/api/login_throttle.go:154-188 | recording a verdict keeps an entry equal to what its history says: failures since the last success, logins open, barred until the last failure plus the capped doubling, last seen |
| LoginThrottle.StartedTells | internal/api/login_throttle.go:138-148 | so does the beginning of a login, under a new entry or a known one |
| LoginThrottle.VerdictCounts | internal/api/login_throttle.go:154-202 | a success clears count and bar; a failure adds one, bars for at most the longest time, and doubles the time before or reaches the longest |
| LoginThrottle.BarredWaits | internal/api/login_throttle.go:112-130 | after enough failures in a row under a key, every login with that key has to wait until the time the last of them bars it to |
| LoginThrottle.Throttle.SlotsConserved | internal/api/login_throttle.go:98-188 | each counter is the number of unfinished attempts with that key; together they are twice the slots in use |
| LoginThrottle.InFlightConserved | internal/api/login_throttle.go:98-188 | every unfinished attempt is counted exactly twice |
| LoginThrottle.AdmittedGood | internal/api/login_throttle.go:138-148 | entering an attempt keeps every counter exact and within its limit |
| LoginThrottle.SubtableGood | internal/api/login_throttle.go:204-243 | pruning and eviction never remove an entry with work in flight and keep the table consistent |
| SingleFlight.StepKeepsInv | internal/cache/singleflight.go:41-67 | every step of every caller keeps flights, records and callers consistent |
| SingleFlight.OneFetchPerKey | internal/cache/singleflight.go:41-67 | in every interleaving at most one fetch per key runs at a time |
| SingleFlight.DeleteRemovesOwnFlight | internal/cache/singleflight.go:61-65 | the final delete removes the owner's own flight |
| SingleFlight.ReturnsRegisteredFetch | internal/cache/singleflight.go:41-67 | every non-cancelled caller returns the published outcome of a fetch for its key registered at its lookup; none reads a record before it holds a result |
| SingleFlight.SomeStepEnabled | internal/cache/singleflight.go:41-67 | for every unfinished caller some step other than a cancellation is possible: its own or its flight owner's |
| SingleFlight.CancelIsInvisible | internal/cache/singleflight.go:45-50 | cancelling a waiter commutes with every other caller's step |
| SingleFlight.RunsEnd | internal/cache/singleflight.go:41-67 | no run exceeds five steps per caller, and one that can only go on by cancelling waiters has finished every caller |
| SegmentCheck.StepKeepsInv | internal/database/calibrate.go:956-995 | every step of every worker keeps the accounting of claimed, cleared and confirmed indices |
| SegmentCheck.ClaimedOnce | internal/database/calibrate.go:966-973 | no index is handed out twice |
| SegmentCheck.VerdictSound | internal/database/calibrate.go:937-1003 | nil: every article was examined and one of its checks did not report it missing; missing: the least article reported missing by both checks; cut short: the caller's context ended and nothing was confirmed |
| SegmentCheck.RunsEnd | internal/database/calibrate.go:937-1003 | every interleaving is finite, and one that cannot go on has every worker exited |
| Sweep.AdvancedAccounts | internal/app/nzb_health_check.go:611-622 | moving the cursor over attempted candidates passes no steadily eligible id by |
| Sweep.StepKeepsInv | internal/app/nzb_health_check.go:574-632 | every step, crash, failed write, row change and damage keeps checkpoint, memory and gate consistent |
| SweepRuns.OneOwner | internal/app/nzb_health_check.go:85-96 | at most one caller is past the gate, and a start is refused exactly while another is |
| SweepRuns.SavedDecodes | internal/app/nzb_health_check.go:489-513 | every checkpoint that reaches the database is accepted by the decoder, as it was saved |
| SweepRuns.CheckpointAdvances | internal/app/nzb_health_check.go:611-622 | After never decreases and stays at most Through; the row count grows by at most a page, and exactly when After does |
| SweepRuns.CompletionCovers | internal/app/nzb_health_check.go:587-605 | completion is written only after attempting every id eligible ever since the bound was read, across crashes and failures |
| SweepRuns.CompletionInRun | internal/app/archive_range_repair.go:231-243 | wherever a run wrote completion, a bound was read before it and everything eligible since was attempted in between |
| SweepRuns.CompletionEndsSweep | internal/app/nzb_health_check.go:587-605 | once a completed sweep's checkpoint has been removed, nothing is fetched, attempted, saved or completed before a new bound has been read |
| SweepRuns.CompletionsCounted | internal/app/nzb_health_check.go:587-605 | exactly the completions that were stored are counted |
| SweepRuns.ScannedCounts | internal/app/nzb_health_check.go:611-622 | the stored row count is the attempts made, less at most one page per crash, stop or failed save, and counts no id twice |
| SweepRuns.ScannedExact | internal/app/archive_range_repair.go:245-287 | without interruptions the stored row count is exactly the attempts made |
| SweepRuns.CrashLosesOnePage | internal/app/nzb_health_check.go:570-632 | a crash leaves the stored checkpoint and throws away at most one page of attempts |
| SweepRuns.CheckpointMeasure | internal/app/nzb_health_check.go:611-622 | the eligible ids in (After, Through] are a measure that each checkpoint lowers by the rows it adds |
| SweepRuns.PageLength | internal/database/health_repository.go:385-411 | a page is as long as the limit allows and empty exactly when nothing eligible is left |
| SweepService.QueryPage | internal/database/archive_range_repair.go:34-65 | the keyset page: the least eligible ids in (after, through], in order, at most the limit |
| SweepService.QueryBound | internal/database/archive_range_repair.go:67-76 | the greatest row id, or 0 |
| SweepService.Service.TryStart | internal/app/archive_range_repair.go:31-42 | starts exactly when the gate was free |
| SweepService.Service.LoadOrStart | internal/app/nzb_health_check.go:530-561 | restores the checkpoint, or resets an invalid one and stores a fresh one; each database step is a protocol step |
| SweepService.Service.RunCandidates | internal/app/nzb_health_check.go:236-427 | the candidate loop attempts a contiguous prefix and its row count is that prefix |
| SweepService.Service.Complete | internal/app/nzb_health_check.go:587-605 | a reported completion wrote the completion cursor and removed the checkpoint |
| SweepService.Service.RunSweepStep | internal/app/nzb_health_check.go:570-632 | the page loop terminates and is a run of the protocol; its row count is the attempts it made; completion was written and the checkpoint removed |
| SweepService.Service.Run | internal/app/nzb_health_check.go:88-96 | the reserved function always gives the gate back |
| Lru.FitIsLongestPrefix | internal/cache/byte_lru.go:137-147 | trimming leaves the longest most-recently-used prefix that fits |
| Lru.HitsAreLatest | internal/cache/byte_lru.go:97-135 | after any operations a hit is the latest value put and not removed; without a limit every such value is a hit |
| Lru.OrderedByUse | internal/cache/byte_lru.go:97-125 | the list is in the order of last use: whatever was put or asked for later stands before whatever was put or asked for earlier |
| Lru.EvictsOldest | internal/cache/byte_lru.go:107-147 | a put drops only keys that were used before every key it keeps |
| Lru.AfterGood | internal/cache/byte_lru.go:97-147 | no key is held twice and a limited shard never exceeds its limit |
| Lru.TotalWithin | internal/cache/byte_lru.go:49-67 | however keys hash, 32 shards hold at most max(maxBytes, 32) bytes |
| Lru.ShareExactly | internal/cache/byte_lru.go:49-67 | the shards share a positive limit evenly, as far as whole bytes go, with at least one byte each |
| Lru.CacheHitsAreLatest | internal/cache/byte_lru.go:69-95 | the same law of hits for the sharded cache as a whole |
| ByteLru.Shard.Lookup | internal/cache/byte_lru.go:97-105 | a hit returns the stored value and moves it first; list and map stay a bijection and the size exact |
| ByteLru.Shard.Store | internal/cache/byte_lru.go:107-125 | the contents become the put of the functional list, evictions included, with the element changed in place when the key is known |
| ByteLru.Shard.Delete | internal/cache/byte_lru.go:128-137 | the contents lose exactly that key |
| ByteLru.Shard.Trim | internal/cache/byte_lru.go:139-147 | the eviction loop terminates with the longest prefix that fits |
| FileIndex.SectionsKeepExact | internal/cache/file_cache.go:136-243 | under any interleaving of locked sections the total is the sum of the listed sizes and order and map list the same paths |
| FileIndex.SectionKeepsExact | internal/cache/file_cache.go:136-243 | each single locked section keeps the index exact |
| FileIndex.PutAndRemoveExactly | internal/cache/file_cache.go:149-201 | however one put and one remove of one key interleave, index and disk agree in the end if and only if the put lists before the remove forgets or moves after the remove has erased |
| FileIndex.InterleavingAgreesExactly | internal/cache/file_cache.go:149-201 | however any puts and removes of one key interleave, index and disk agree in the end if and only if the last deed on each says the same |
| FileIndex.SharedTempDrifts | internal/cache/file_cache.go:149-180 | two puts that share the temporary file leave a wrong size in the index unless their values are equally long |
| FileCache.Cache.EnsureSeeded | internal/cache/file_cache.go:70-117 | seeding happens once; a reliable directory without leftovers is mirrored exactly; a failure is permanent |
| FileCache.Cache.Seed | internal/cache/file_cache.go:79-115 | the files are listed oldest first with their sizes |
| FileCache.Cache.Get | internal/cache/file_cache.go:119-144 | returns what the disk holds and makes it most recent; on a mirrored disk it is the functional list's get |
| FileCache.Cache.Put | internal/cache/file_cache.go:146-180 | on a mirrored disk it is the functional list's put, evictions included; failures never leave an indexed path without its file |
| FileCache.Cache.Delete | internal/cache/file_cache.go:181-201 | on a mirrored disk it is the functional list's remove; failures keep the index sound |
| FileCache.Cache.Trim | internal/cache/file_cache.go:213-243 | terminates with total <= maxBytes even if deletions fail; on a mirrored disk the longest recent part that fits survives |
| FileCache.Cache.Prune | internal/cache/file_cache.go:249-274 | on a mirrored disk the reported files and bytes are those of the evicted entries |
| FileCache.RestartKeepsOrder | internal/cache/file_cache.go:70-117 | a restart that sorts by modification time finds the eviction order the cache had, when times differ |
| FileCache.LeftoverTempDrifts | internal/cache/file_cache.go:79-115 | if seeding indexed files accurately, a put keeps the index accurate exactly when its temporary file is not listed |
| FileCache.EvictMirrors | internal/cache/file_cache.go:226-243 | one round of the trim loop is one eviction of the functional list |
| FileCache.StoredMirrors | internal/cache/file_cache.go:157-179 | a renamed file that gets listed keeps index and disk equal, with the path most recent |

## Left out

- 64-bit wrap-around in RAR range and span arithmetic is not modelled: sizes and offsets there are unbounded integers. It is modelled in `SevenZip`, `MessageIds` and `LoginThrottle.Backoff`.
- SpanLayout.ComputeSpans: leaves out the offsets a whole segment or more before the file on which the program indexes before its first message ID (`Overruns`).
- StoredRar.BuildStoredRarSpans: leaves out ranges with such offsets. Paths are trimmed and lower-cased as ASCII text (`VolumeNames`).
- StoredRarBytes.ShortServes: every source has segment data, because only such volumes have bytes to speak of.
- StoredRar.StoredRarTiles: EntryTruncated is claimed for freshly computed spans only (`SpanLayout.SpansTruncatedFlag`); truncation clips an end without setting it.
- StoredRarReader.Reader.ReadAt: one reader at a time, and articles stay what they are; concurrent readers of one table, whose version check makes a fetch resolved from a replaced table be repeated, are not modelled, nor are read-ahead and network retries. The fetcher always measures or, for an article without a position, repeats the span's own assumptions; segment IDs tell spans apart, as the builder makes them.
- StoredRarLoad.VfCache.Load: one call at a time; overlapping loads and calibrations are in `VfCacheRace`, which models one file and versions of its rows instead of entries.
- StoredRarLoad.LoadStoredRarSpansUncorrected: the SQL rows and the measured continuation offsets are inputs.
- Aggregation.AggregateRARVolumeEntries: paths are compared as ASCII text; Unicode case folding is not modelled.
- LoginThrottle.KeysFor: the account digest is a parameter, and trimming and lower-casing are ASCII only.
- LoginThrottle.Throttle.Begin: the mutex makes each call one step, so interleavings are sequences of calls; the clock reading is a parameter. Finishing a nil attempt is not modelled.
- Rar5Inspect.InspectRar5: no password is given, so the decryption of encrypted headers and the verification of keys are left out; which names are those of videos is a parameter, and so the base name of a path is not taken.
- MessageIds.PackRoundTrip: zstd is an abstract lossless compressor, and what the program can make room for is a parameter below 2^63.
- SevenZip.EntryFor: the reflection into the sevenzip library is replaced by pack sizes, stream counts, coder IDs and offsets as inputs.
- SingleFlight.ReturnsRegisteredFetch: fetches always return; a fetch that panics leaves its flight registered in the program and is not modelled.
- SegmentCheck.VerdictSound: the answers of checks and the end of contexts are arbitrary; the early return for a fetcher that cannot check, and the loading of the message IDs, are left out.
- Sweep.StepKeepsInv: what one attempt does to a candidate, the repaired-items counters and the JSON text of the checkpoint are left out; an encoded checkpoint is its fields.
- SweepRuns.CompletionCovers: "steadily eligible" means eligible in every state from the bound query on; an id that is ineligible for a moment may be passed by.
- ByteLru.Shard.Store: the copy of the caller's slice is a value, and the lock makes each operation one step. The key hash that picks the shard is a parameter of the theorems in `Lru`.
- FileCache.Cache.Put: distinct keys are taken to have distinct paths; directories inside the cache directory are not modelled; the clock grows with every use.
- FileCache.Cache.Seed: files with equal modification times are listed in any order, as an unstable sort may.
- The RAR4 walkers, `reconcileStoreMethodSize`, the growing-prefix retry loop around the inspection, PAR2 handling, subject parsing and error classification would only add easy members.
- SQL, NNTP, yEnc, WebDAV, FUSE, HTTP handlers, metrics, logging and configuration are outside the model.
