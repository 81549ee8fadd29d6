/** Volumes written to the RAR 5.0 archive format technical note, sections "File header" and "Extra area
    format": what the parser of a file header and the inspection find in them. */
module Rar5Writing {
  import opened Base128
  import opened Bytes
  import opened Rar5
  import opened Rar5Files
  import opened Rar5Inspect

  // ----- The fields of a file header ---------------------------------------------------------------------------

  /** A file header as the format describes it. The four low flag bits say whether the file is a directory,
      whether time and checksum are present, and whether the size is unknown; `highFlags` are the other flags.
      The compression information is made of version, solid flag, packing method and dictionary size. */
  datatype FileSpec = FileSpec(directory: bool, size: Option<nat>, attributes: nat, time: Option<seq<byte>>,
                               checksum: Option<seq<byte>>, highFlags: nat, version: nat, solid: bool, packing: nat,
                               dictionary: nat, host: nat, name: seq<byte>)

  function Bit(b: bool): nat { if b then 1 else 0 }

  function FileFlags(f: FileSpec): nat {
    Bit(f.directory) + 2 * Bit(f.time.Some?) + 4 * Bit(f.checksum.Some?) + 8 * Bit(f.size.None?) + 16 * f.highFlags
  }

  function CompressionInfo(f: FileSpec): nat {
    f.version + 64 * Bit(f.solid) + 128 * f.packing + 1024 * f.dictionary
  }

  /** The header can be written: numbers in their ranges, and four bytes each for time and checksum. */
  predicate WritableFile(f: FileSpec) {
    && f.version < 64 && f.packing < 8
    && FileFlags(f) < VINT_LIMIT && CompressionInfo(f) < VINT_LIMIT && f.attributes < VINT_LIMIT
    && f.host < VINT_LIMIT && |f.name| < VINT_LIMIT && (f.size.Some? ==> f.size.value < VINT_LIMIT)
    && (f.time.Some? ==> |f.time.value| == 4) && (f.checksum.Some? ==> |f.checksum.value| == 4)
  }

  function WrittenSize(size: Option<nat>): seq<byte> { if size.Some? then Encoded(size.value) else [] }

  function WrittenOpening(f: FileSpec): seq<byte> {
    Encoded(FileFlags(f)) + (WrittenSize(f.size) + Encoded(f.attributes))
  }

  function WrittenClosing(f: FileSpec): seq<byte> {
    Encoded(CompressionInfo(f)) + (Encoded(f.host) + (Encoded(|f.name|) + f.name))
  }

  function WrittenFields(f: FileSpec): seq<byte> {
    WrittenOpening(f) + (Content(f.time) + (Content(f.checksum) + WrittenClosing(f)))
  }

  lemma FlagsRead(f: FileSpec)
    ensures var flags := FileFlags(f);
      && (flags % 2 == 1 <==> f.directory) && (flags / 2 % 2 == 1 <==> f.time.Some?)
      && (flags / 4 % 2 == 1 <==> f.checksum.Some?) && (flags / 8 % 2 == 0 <==> f.size.Some?)
  {
    var d, t, c, u := Bit(f.directory), Bit(f.time.Some?), Bit(f.checksum.Some?), Bit(f.size.None?);
    var high := u + 2 * f.highFlags;
    assert FileFlags(f) == d + 2 * (t + 2 * (c + 2 * high));
    Digits2(d, t + 2 * (c + 2 * high));
    Digits2(t, c + 2 * high);
    Digits4(d + 2 * t, c + 2 * high);
    Digits2(c, high);
    Digits8(d + 2 * t + 4 * c, high);
    Digits2(u, f.highFlags);
  }

  lemma Digits2(low: nat, rest: nat)
    requires low < 2
    ensures (low + 2 * rest) / 2 == rest && (low + 2 * rest) % 2 == low
  {
  }

  lemma Digits4(low: nat, rest: nat)
    requires low < 4
    ensures (low + 4 * rest) / 4 == rest
  {
  }

  lemma CompressionReads(f: FileSpec)
    requires f.version < 64 && f.packing < 8
    ensures CompressionInfo(f) / 64 % 2 == Bit(f.solid) && CompressionInfo(f) / 128 % 8 == f.packing
  {
    Digits64(f.version, Bit(f.solid) + 2 * (f.packing + 8 * f.dictionary));
    Digits128(f.version + 64 * Bit(f.solid), f.packing + 8 * f.dictionary);
    Digits8(f.packing, f.dictionary);
  }

  lemma Digits64(low: nat, rest: nat)
    requires low < 64
    ensures (low + 64 * rest) / 64 == rest
  {
  }

  lemma Digits128(low: nat, rest: nat)
    requires low < 128
    ensures (low + 128 * rest) / 128 == rest
  {
  }

  lemma Digits8(low: nat, rest: nat)
    requires low < 8
    ensures (low + 8 * rest) / 8 == rest && (low + 8 * rest) % 8 == low
  {
  }

  lemma FieldReads(raw: seq<byte>, pos: nat, v: nat, end: int)
    requires v < VINT_LIMIT && PartAt(raw, pos, Encoded(v)) && pos + |Encoded(v)| <= end
    ensures FieldAt(raw, pos, end) == Some(Field(v, pos + |Encoded(v)|))
  {
    VintRoundTrip(raw, pos, v);
  }

  lemma OpeningReads(raw: seq<byte>, pos: nat, end: int, f: FileSpec)
    requires WritableFile(f) && PartAt(raw, pos, WrittenOpening(f)) && pos + |WrittenOpening(f)| <= end
    ensures OpeningAt(raw, pos, end)
         == Some(Opening(FileFlags(f), if f.size.Some? then f.size.value else 0, pos + |WrittenOpening(f)|))
  {
    hide PartAt, Encoded, FieldAt, FileFlags, CompressionInfo;
    var flags, size, attributes := Encoded(FileFlags(f)), WrittenSize(f.size), Encoded(f.attributes);
    PartAtConcat(raw, pos, flags, size + attributes);
    PartAtConcat(raw, pos + |flags|, size, attributes);
    FieldReads(raw, pos, FileFlags(f), end);
    FlagsRead(f);
    if f.size.Some? {
      FieldReads(raw, pos + |flags|, f.size.value, end);
    }
    FieldReads(raw, pos + |flags| + |size|, f.attributes, end);
  }

  lemma ClosingReads(raw: seq<byte>, pos: nat, end: int, f: FileSpec)
    requires WritableFile(f) && PartAt(raw, pos, WrittenClosing(f)) && pos + |WrittenClosing(f)| <= end <= |raw|
    ensures ClosingAt(raw, pos, end) == Some(Closing(CompressionInfo(f), f.name))
  {
    hide PartAt, Encoded, FieldAt, FileFlags, CompressionInfo;
    var compression, host, length := Encoded(CompressionInfo(f)), Encoded(f.host), Encoded(|f.name|);
    PartAtConcat(raw, pos, compression, host + (length + f.name));
    PartAtConcat(raw, pos + |compression|, host, length + f.name);
    PartAtConcat(raw, pos + |compression| + |host|, length, f.name);
    FieldReads(raw, pos, CompressionInfo(f), end);
    FieldReads(raw, pos + |compression|, f.host, end);
    FieldReads(raw, pos + |compression| + |host|, |f.name|, end);
    PartIs(raw, pos + |compression| + |host| + |length|, f.name);
  }

  lemma PartIs<T>(whole: seq<T>, pos: int, part: seq<T>)
    requires PartAt(whole, pos, part)
    ensures 0 <= pos <= pos + |part| <= |whole| && whole[pos..pos + |part|] == part
  {
  }

  /** The fields of a written header are read back as they were meant. */
  lemma FieldsRead(raw: seq<byte>, pos: nat, f: FileSpec)
    requires WritableFile(f) && PartAt(raw, pos, WrittenFields(f))
    ensures pos + |WrittenFields(f)| <= |raw|
    ensures FieldsAt(raw, pos, pos + |WrittenFields(f)|)
         == Some(Fields(f.directory, if f.size.Some? then f.size.value else 0, f.solid, f.packing, f.name))
  {
    hide PartAt, OpeningAt, ClosingAt, WrittenOpening, WrittenClosing, FileFlags, CompressionInfo;
    var opening, time, checksum, closing := WrittenOpening(f), Content(f.time), Content(f.checksum), WrittenClosing(f);
    var end := pos + |WrittenFields(f)|;
    PartAtFits(raw, pos, WrittenFields(f));
    PartAtConcat(raw, pos, opening, time + (checksum + closing));
    PartAtConcat(raw, pos + |opening|, time, checksum + closing);
    PartAtConcat(raw, pos + |opening| + |time|, checksum, closing);
    OpeningReads(raw, pos, end, f);
    ClosingReads(raw, pos + |opening| + |time| + |checksum|, end, f);
    FlagsRead(f);
    CompressionReads(f);
  }

  // ----- The extra area -----------------------------------------------------------------------------------------

  datatype Record = Record(kind: nat, data: seq<byte>)

  predicate WritableRecord(r: Record) { r.kind < VINT_LIMIT && |Encoded(r.kind)| + |r.data| < VINT_LIMIT }

  function WrittenRecord(r: Record): seq<byte> {
    Encoded(|Encoded(r.kind)| + |r.data|) + (Encoded(r.kind) + r.data)
  }

  function WrittenRecords(records: seq<Record>): seq<byte> {
    if records == [] then [] else WrittenRecord(records[0]) + WrittenRecords(records[1..])
  }

  /** One of the records is an encryption record. */
  predicate HasEncryption(records: seq<Record>) { exists r | r in records :: r.kind == 1 }

  /** The walk over a written extra area finds an encryption record if and only if there is one. */
  lemma {:induction false} RecordsRead(raw: seq<byte>, pos: nat, records: seq<Record>)
    requires (forall r | r in records :: WritableRecord(r)) && PartAt(raw, pos, WrittenRecords(records))
    ensures ScanFrom(raw, pos, pos + |WrittenRecords(records)|) == if HasEncryption(records) then Encrypted else Plain
    decreases |records|
  {
    hide PartAt, VintAt, Encoded, HasEncryption;
    if records == [] {
      NoEncryption();
    } else {
      var r, rest := records[0], WrittenRecords(records[1..]);
      var size, kind := Encoded(|Encoded(r.kind)| + |r.data|), Encoded(r.kind);
      assert r in records;
      PartAtConcat(raw, pos, WrittenRecord(r), rest);
      PartAtConcat(raw, pos, size, kind + r.data);
      PartAtConcat(raw, pos + |size|, kind, r.data);
      VintRoundTrip(raw, pos, |kind| + |r.data|);
      VintRoundTrip(raw, pos + |size|, r.kind);
      RecordsRead(raw, pos + |WrittenRecord(r)|, records[1..]);
      FirstEncryption(records);
    }
  }

  lemma NoEncryption()
    ensures !HasEncryption([])
  {
  }

  lemma FirstEncryption(records: seq<Record>)
    requires records != []
    ensures HasEncryption(records) <==> records[0].kind == 1 || HasEncryption(records[1..])
  {
    assert records == [records[0]] + records[1..];
  }

  // ----- A whole file header --------------------------------------------------------------------------------------

  /** A block of a volume: one that holds no file, or the header of a file with its extra area and its data. */
  datatype Piece =
    | Other(block: BlockSpec)
    | Holding(file: FileSpec, records: seq<Record>, headChecksum: seq<byte>, headFlags: nat, data: Option<seq<byte>>)

  function BlockOf(p: Piece): BlockSpec {
    match p
    case Other(block) => block
    case Holding(file, records, checksum, flags, data) =>
      BlockSpec(checksum, 2, flags, if records == [] then None else Some(WrittenRecords(records)), data,
                WrittenFields(file))
  }

  /** The piece can be written, and does not end or encrypt the archive. */
  predicate WritablePiece(p: Piece) {
    && Writable(BlockOf(p))
    && (p.Other? ==> p.block.headType !in {2, 4, 5})
    && (p.Holding? ==> WritableFile(p.file) && forall r | r in p.records :: WritableRecord(r))
  }

  /** What should be found of a file whose header is written at `pos`. */
  function Meant(p: Piece, pos: nat, video: seq<byte> -> bool): Parsed
    requires p.Holding?
  {
    if p.file.directory then Directory
    else File(p.file.name, video(p.file.name), p.file.solid, p.file.packing == 0, HasEncryption(p.records),
              if p.file.size.Some? then p.file.size.value else 0, pos + |EncodedHeader(BlockOf(p))|, |Content(p.data)|)
  }

  /** A written file header is read back as it was meant: name, solid flag, whether it is stored and whether it is
      encrypted, its size, and the place and length of its data. */
  lemma FileReads(raw: seq<byte>, pos: nat, p: Piece, video: seq<byte> -> bool)
    requires p.Holding? && WritablePiece(p) && PartAt(raw, pos, EncodedHeader(BlockOf(p)))
    ensures var h := HeaderOf(Expected(BlockOf(p), pos));
      Inside(raw, h) && ParsedAt(raw, h, video) == Meant(p, pos, video)
  {
    hide PartAt, WrittenFields, WrittenRecords, FieldsAt, ScanFrom, EncodedGeneral, Encoded, HasEncryption,
         WritableFile, FlagsOf;
    var b := BlockOf(p);
    var h := HeaderOf(Expected(b, pos));
    var extra := Content(b.extra);
    HeaderParts(raw, pos, b);
    var body := pos + 4 + |Encoded(|EncodedBody(b)|)|;
    PartAtConcat(raw, body, EncodedGeneral(b), b.fields + extra);
    PartAtConcat(raw, body + |EncodedGeneral(b)|, b.fields, extra);
    PartAtFits(raw, body, EncodedBody(b));
    FieldsRead(raw, h.fieldsPos, p.file);
    ExtraReads(raw, h.fieldsEnd, p);
  }

  lemma ExtraReads(raw: seq<byte>, pos: nat, p: Piece)
    requires p.Holding? && WritablePiece(p) && PartAt(raw, pos, Content(BlockOf(p).extra))
    ensures ScanFrom(raw, pos, pos + |Content(BlockOf(p).extra)|).Encrypted? <==> HasEncryption(p.records)
  {
    hide PartAt, ScanFrom;
    assert WrittenRecords([]) == [];
    RecordsRead(raw, pos, p.records);
  }

  // ----- A whole volume ----------------------------------------------------------------------------------------------

  ghost predicate AllWritable(pieces: seq<Piece>) { forall p | p in pieces :: WritablePiece(p) }

  function BlocksOf(pieces: seq<Piece>): (blocks: seq<BlockSpec>)
    ensures |blocks| == |pieces|
  {
    if pieces == [] then [] else [BlockOf(pieces[0])] + BlocksOf(pieces[1..])
  }

  /** The place behind the first piece when it is written at `pos`. */
  function Behind(pieces: seq<Piece>, pos: nat): nat
    requires pieces != []
  {
    pos + |EncodedBlock(BlockOf(pieces[0]))|
  }

  /** What should be found in the pieces, written from `pos` on: a reading for each piece that holds a file. */
  function AllMeant(pieces: seq<Piece>, pos: nat, video: seq<byte> -> bool): seq<Parsed> {
    if pieces == [] then []
    else
      (if pieces[0].Holding? then [Meant(pieces[0], pos, video)] else [])
      + AllMeant(pieces[1..], Behind(pieces, pos), video)
  }

  /** The headers the walk should visit. */
  function HeadersIn(pieces: seq<Piece>, pos: nat): seq<FileHeader> {
    if pieces == [] then []
    else
      (if pieces[0].Holding? then [HeaderOf(Expected(BlockOf(pieces[0]), pos))] else [])
      + HeadersIn(pieces[1..], Behind(pieces, pos))
  }

  /** How the walk stops at a block that ends the archive or encrypts the rest of it. */
  function StopAt(last: BlockSpec): Stop { if last.headType == 5 then Ended else Locked }

  /** The walk over written pieces, up to such a block. */
  lemma {:induction false} WalkWritten(pieces: seq<Piece>, last: BlockSpec, pos: nat, more: seq<Block>)
    requires AllWritable(pieces) && last.headType in {4, 5}
    requires ExpectedBlocks(BlocksOf(pieces) + [last], pos) <= more
    ensures WalkIn(more) == Walk(HeadersIn(pieces, pos), StopAt(last))
    decreases |pieces|
  {
    hide Expected, EncodedBlock, ExpectedBlocks, WalkIn, HeaderOf, WritablePiece;
    var blocks := BlocksOf(pieces) + [last];
    FirstExpected(blocks, pos);
    WalkFirst(more);
    if pieces != [] {
      assert pieces[0] in pieces && AllWritable(pieces[1..]);
      assert blocks[0] == BlockOf(pieces[0]) && blocks[1..] == BlocksOf(pieces[1..]) + [last];
      WalkWritten(pieces[1..], last, Behind(pieces, pos), more[1..]);
      PieceType(pieces[0], pos);
    } else {
      HeadTypeIs(last, pos);
    }
  }

  lemma PieceType(p: Piece, pos: nat)
    requires WritablePiece(p)
    ensures var t := Expected(BlockOf(p), pos).headType; t != 4 && t != 5 && (t == 2 <==> p.Holding?)
  {
  }

  /** The walk at its first block. */
  lemma WalkFirst(blocks: seq<Block>)
    requires blocks != []
    ensures blocks[0].headType == 5 ==> WalkIn(blocks) == Walk([], Ended)
    ensures blocks[0].headType == 4 && blocks[0].fieldsPos <= blocks[0].bodyEnd ==> WalkIn(blocks) == Walk([], Locked)
    ensures blocks[0].headType == 2 ==>
      WalkIn(blocks) == Walk([HeaderOf(blocks[0])] + WalkIn(blocks[1..]).headers, WalkIn(blocks[1..]).stop)
    ensures blocks[0].headType !in {2, 4, 5} ==> WalkIn(blocks) == WalkIn(blocks[1..])
  {
  }

  lemma FirstExpected(blocks: seq<BlockSpec>, pos: nat)
    requires blocks != []
    ensures ExpectedBlocks(blocks, pos)
         == [Expected(blocks[0], pos)] + ExpectedBlocks(blocks[1..], pos + |EncodedBlock(blocks[0])|)
  {
  }

  lemma HeadTypeIs(b: BlockSpec, pos: nat)
    ensures Expected(b, pos).headType == b.headType && Expected(b, pos).fieldsPos <= Expected(b, pos).bodyEnd
  {
  }

  /** Every header the walk visits is read as it was meant. */
  lemma {:induction false} PiecesRead(raw: seq<byte>, pieces: seq<Piece>, pos: nat, video: seq<byte> -> bool)
    requires AllWritable(pieces) && PartAt(raw, pos, EncodedBlocks(BlocksOf(pieces)))
    ensures AllInside(raw, HeadersIn(pieces, pos))
    ensures ParsedAll(raw, HeadersIn(pieces, pos), video) == AllMeant(pieces, pos, video)
    decreases |pieces|
  {
    hide PartAt, Meant, ParsedAt, Expected, EncodedHeader, WritablePiece, HeaderOf, Inside;
    if pieces != [] {
      var p, rest := pieces[0], BlocksOf(pieces[1..]);
      assert p in pieces && AllWritable(pieces[1..]);
      assert BlocksOf(pieces)[1..] == rest;
      PartAtConcat(raw, pos, EncodedBlock(BlockOf(p)), EncodedBlocks(rest));
      PartAtConcat(raw, pos, EncodedHeader(BlockOf(p)), Content(BlockOf(p).data));
      PiecesRead(raw, pieces[1..], Behind(pieces, pos), video);
      if p.Holding? {
        FileReads(raw, pos, p, video);
        ParsedFirst(raw, HeaderOf(Expected(BlockOf(p), pos)), HeadersIn(pieces[1..], Behind(pieces, pos)), video);
      }
    }
  }

  lemma ParsedFirst(raw: seq<byte>, h: FileHeader, rest: seq<FileHeader>, video: seq<byte> -> bool)
    requires Inside(raw, h) && AllInside(raw, rest)
    ensures AllInside(raw, [h] + rest)
    ensures ParsedAll(raw, [h] + rest, video) == [ParsedAt(raw, h, video)] + ParsedAll(raw, rest, video)
  {
    hide Inside;
    assert ([h] + rest)[1..] == rest;
  }

  /** The volume starts with the signature and the pieces; behind them the archive ends, or goes on encrypted,
      whatever follows. */
  ghost predicate WrittenVolume(raw: seq<byte>, pieces: seq<Piece>, last: BlockSpec) {
    && AllWritable(pieces) && Writable(last) && last.headType in {4, 5}
    && SIGNATURE + EncodedBlocks(BlocksOf(pieces) + [last]) <= raw
  }

  /** Inspecting it comes down to what the pieces mean. */
  lemma WrittenAnswer(raw: seq<byte>, pieces: seq<Piece>, last: BlockSpec, video: seq<byte> -> bool)
    requires WrittenVolume(raw, pieces, last)
    ensures last.headType in {4, 5}
    ensures Inspection(raw, video) == Answer(AllMeant(pieces, 8, video), StopAt(last), [], false)
  {
    hide PartAt, Blocks, WalkIn, ExpectedBlocks, Writable, Answer, EncodedBlocks, WritablePiece, Signed, AllMeant,
         HeadersIn, ParsedAt;
    var blocks := BlocksOf(pieces) + [last];
    forall b | b in blocks ensures Writable(b) {
      BlockWritable(pieces, last, b);
    }
    VolumeReads(raw, blocks);
    WalkWritten(pieces, last, 8, Blocks(raw, 8));
    PrefixIsPart(raw, SIGNATURE + EncodedBlocks(blocks));
    PartAtConcat(raw, 0, SIGNATURE, EncodedBlocks(blocks));
    EncodedFront(BlocksOf(pieces), last);
    PartAtConcat(raw, 8, EncodedBlocks(BlocksOf(pieces)), EncodedBlocks([last]));
    PiecesRead(raw, pieces, 8, video);
  }

  lemma {:induction false} BlockWritable(pieces: seq<Piece>, last: BlockSpec, b: BlockSpec)
    requires AllWritable(pieces) && Writable(last) && b in BlocksOf(pieces) + [last]
    ensures Writable(b)
  {
    hide Writable;
    if pieces != [] {
      assert pieces[0] in pieces && AllWritable(pieces[1..]);
      if b != BlockOf(pieces[0]) {
        BlockWritable(pieces[1..], last, b);
      }
    }
  }

  lemma {:induction false} EncodedFront(blocks: seq<BlockSpec>, last: BlockSpec)
    ensures EncodedBlocks(blocks + [last]) == EncodedBlocks(blocks) + EncodedBlocks([last])
  {
    hide EncodedBlock;
    if blocks == [] {
      assert blocks + [last] == [last];
    } else {
      assert (blocks + [last])[0] == blocks[0] && (blocks + [last])[1..] == blocks[1..] + [last];
      EncodedFront(blocks[1..], last);
    }
  }

  // ----- The answers ------------------------------------------------------------------------------------------------

  predicate IsFile(p: Piece) { p.Holding? && !p.file.directory }

  predicate IsVideo(p: Piece, video: seq<byte> -> bool) { IsFile(p) && video(p.file.name) }

  /** The file's bytes stand in the volume as they are. */
  predicate Plainly(p: Piece)
    requires p.Holding?
  {
    !HasEncryption(p.records) && !p.file.solid && p.file.packing == 0
  }

  /** The readings of the files among the pieces. */
  function FilesMeant(pieces: seq<Piece>, pos: nat, video: seq<byte> -> bool): seq<Parsed> {
    if pieces == [] then []
    else
      (if IsFile(pieces[0]) then [Meant(pieces[0], pos, video)] else [])
      + FilesMeant(pieces[1..], Behind(pieces, pos), video)
  }

  ghost predicate AllPlain(pieces: seq<Piece>, video: seq<byte> -> bool) {
    forall p | p in pieces && IsVideo(p, video) :: Plainly(p)
  }

  ghost predicate SomeVideo(pieces: seq<Piece>, video: seq<byte> -> bool) {
    exists p | p in pieces :: IsVideo(p, video)
  }

  lemma MeantRejection(p: Piece, pos: nat, video: seq<byte> -> bool)
    requires p.Holding?
    ensures Rejection(Meant(p, pos, video)) ==
      if !IsVideo(p, video) || Plainly(p) then None
      else if HasEncryption(p.records) then Some(EncryptedArchive)
      else if p.file.solid then Some(SolidUnsupported)
      else Some(CompressionUnsupported)
    ensures Meant(p, pos, video).File? <==> IsFile(p)
    ensures IsFile(p) ==> Meant(p, pos, video).playable == IsVideo(p, video)
  {
  }

  lemma AnswerFirst(p: Parsed, rest: seq<Parsed>, stop: Stop, files: seq<Parsed>, found: bool)
    ensures Answer([p] + rest, stop, files, found)
         == if Rejection(p).Some? then Rejection(p).value
            else Answer(rest, stop, if p.File? then files + [p] else files, found || (p.File? && p.playable))
  {
    assert ([p] + rest)[1..] == rest;
  }

  /** How the answer goes on behind the first piece, if it is not rejected. */
  lemma AnswerPiece(pieces: seq<Piece>, pos: nat, video: seq<byte> -> bool, stop: Stop, files: seq<Parsed>, found: bool)
    requires pieces != [] && (IsVideo(pieces[0], video) ==> Plainly(pieces[0]))
    ensures Answer(AllMeant(pieces, pos, video), stop, files, found)
         == Answer(AllMeant(pieces[1..], Behind(pieces, pos), video), stop,
                   if IsFile(pieces[0]) then files + [Meant(pieces[0], pos, video)] else files,
                   found || IsVideo(pieces[0], video))
  {
    hide Meant, Answer, Rejection, HasEncryption, EncodedBlock;
    var p, rest := pieces[0], AllMeant(pieces[1..], Behind(pieces, pos), video);
    if p.Holding? {
      MeantRejection(p, pos, video);
      AnswerFirst(Meant(p, pos, video), rest, stop, files, found);
    } else {
      assert [] + rest == rest;
    }
  }

  lemma {:induction false} AnswerRejected(pieces: seq<Piece>, pos: nat, video: seq<byte> -> bool, stop: Stop,
                                          files: seq<Parsed>, found: bool, k: nat)
    requires k < |pieces| && IsVideo(pieces[k], video) && !Plainly(pieces[k])
    requires forall j | 0 <= j < k && IsVideo(pieces[j], video) :: Plainly(pieces[j])
    ensures Answer(AllMeant(pieces, pos, video), stop, files, found)
         == if HasEncryption(pieces[k].records) then EncryptedArchive
            else if pieces[k].file.solid then SolidUnsupported else CompressionUnsupported
    decreases k
  {
    hide Meant, Answer, Rejection, HasEncryption, EncodedBlock;
    if k == 0 {
      MeantRejection(pieces[0], pos, video);
      AnswerFirst(Meant(pieces[0], pos, video), AllMeant(pieces[1..], Behind(pieces, pos), video), stop, files, found);
    } else {
      hide AllMeant;
      AnswerPiece(pieces, pos, video, stop, files, found);
      AnswerRejected(pieces[1..], Behind(pieces, pos), video, stop,
                     if IsFile(pieces[0]) then files + [Meant(pieces[0], pos, video)] else files,
                     found || IsVideo(pieces[0], video), k - 1);
    }
  }

  lemma {:induction false} AnswerAccepted(pieces: seq<Piece>, pos: nat, video: seq<byte> -> bool, stop: Stop,
                                          files: seq<Parsed>, found: bool)
    requires AllPlain(pieces, video) && !stop.Broken?
    ensures Answer(AllMeant(pieces, pos, video), stop, files, found)
         == var all := files + FilesMeant(pieces, pos, video);
            if stop.Locked? then EncryptedArchive
            else if all == [] then HeadersInvalid
            else if found || SomeVideo(pieces, video) then Found(all) else VideoNotFound(all)
  {
    if pieces == [] {
      assert files + [] == files;
    } else {
      hide Meant, Rejection, HasEncryption, EncodedBlock, Plainly, Answer, AllMeant, FilesMeant, AllPlain, SomeVideo,
           IsVideo;
      FirstPiece(pieces, pos, video);
      AnswerPiece(pieces, pos, video, stop, files, found);
      var head := if IsFile(pieces[0]) then [Meant(pieces[0], pos, video)] else [];
      var rest := FilesMeant(pieces[1..], Behind(pieces, pos), video);
      AnswerAccepted(pieces[1..], Behind(pieces, pos), video, stop, files + head, found || IsVideo(pieces[0], video));
      Regroup(files, head, rest);
    }
  }

  lemma Regroup<T>(files: seq<T>, head: seq<T>, rest: seq<T>)
    ensures (files + head) + rest == files + (head + rest) && files + [] == files
  {
  }

  lemma FirstPiece(pieces: seq<Piece>, pos: nat, video: seq<byte> -> bool)
    requires AllPlain(pieces, video) && pieces != []
    ensures AllPlain(pieces[1..], video) && (IsVideo(pieces[0], video) ==> Plainly(pieces[0]))
    ensures SomeVideo(pieces, video) <==> IsVideo(pieces[0], video) || SomeVideo(pieces[1..], video)
    ensures FilesMeant(pieces, pos, video)
         == (if IsFile(pieces[0]) then [Meant(pieces[0], pos, video)] else [])
            + FilesMeant(pieces[1..], Behind(pieces, pos), video)
  {
    hide Meant, EncodedBlock, Plainly, IsVideo;
    assert pieces == [pieces[0]] + pieces[1..];
  }

  /** The first video that cannot be played as it stands decides: the archive is rejected as encrypted if that
      file's extra area has an encryption record, else as solid if it is, else as compressed. */
  lemma WrittenRejected(raw: seq<byte>, pieces: seq<Piece>, last: BlockSpec, video: seq<byte> -> bool, k: nat)
    requires WrittenVolume(raw, pieces, last)
    requires k < |pieces| && IsVideo(pieces[k], video) && !Plainly(pieces[k])
    requires forall j | 0 <= j < k && IsVideo(pieces[j], video) :: Plainly(pieces[j])
    ensures Inspection(raw, video)
         == if HasEncryption(pieces[k].records) then EncryptedArchive
            else if pieces[k].file.solid then SolidUnsupported else CompressionUnsupported
  {
    hide WrittenVolume, Inspection, AllMeant, Answer, Plainly;
    WrittenAnswer(raw, pieces, last, video);
    AnswerRejected(pieces, 8, video, StopAt(last), [], false, k);
  }

  /** When every video can be played as it stands, the archive is rejected if it goes on encrypted, and otherwise
      its files are listed as they were meant, with or without the finding that there is a video among them. */
  lemma WrittenAccepted(raw: seq<byte>, pieces: seq<Piece>, last: BlockSpec, video: seq<byte> -> bool)
    requires WrittenVolume(raw, pieces, last) && AllPlain(pieces, video)
    ensures Inspection(raw, video)
         == var files := FilesMeant(pieces, 8, video);
            if last.headType == 4 then EncryptedArchive
            else if files == [] then HeadersInvalid
            else if SomeVideo(pieces, video) then Found(files) else VideoNotFound(files)
  {
    hide WrittenVolume, Inspection, AllMeant, Answer, AllPlain, SomeVideo;
    WrittenAnswer(raw, pieces, last, video);
    AnswerAccepted(pieces, 8, video, StopAt(last), [], false);
    assert [] + FilesMeant(pieces, 8, video) == FilesMeant(pieces, 8, video);
  }
}
