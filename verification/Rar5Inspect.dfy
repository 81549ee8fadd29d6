/** The walk that collects every file header of a RAR5 volume prefix (`inspectRAR5`), without a password: what
    it answers, how it agrees with the other walk, and which answers more data can change. */
module Rar5Inspect {
  import opened Bytes
  import opened Rar5
  import opened Rar5Files

  /** How a walk over the blocks ends: at the last block, at an encryption header, or at one whose general
      fields run past its end, which makes the program slice out of bounds. */
  datatype Stop = Ended | Locked | Broken

  /** The file headers a walk visits, and how it ends. */
  datatype Walk = Walk(headers: seq<FileHeader>, stop: Stop)

  function HeaderOf(b: Block): FileHeader {
    FileHeader(b.fieldsPos, b.bodyEnd - b.extraSize, b.bodyEnd, b.bodyEnd, b.dataSize)
  }

  function WalkIn(blocks: seq<Block>): Walk {
    if blocks == [] || blocks[0].headType == 5 then Walk([], Ended)
    else if blocks[0].headType == 4 then Walk([], if blocks[0].fieldsPos > blocks[0].bodyEnd then Broken else Locked)
    else
      var rest := WalkIn(blocks[1..]);
      if blocks[0].headType == 2 then Walk([HeaderOf(blocks[0])] + rest.headers, rest.stop) else rest
  }

  datatype Outcome =
    | Found(files: seq<Parsed>)
    | VideoNotFound(files: seq<Parsed>)
    | HeadersInvalid
    | EncryptedArchive
    | SolidUnsupported
    | CompressionUnsupported
    | Crash

  /** The reason a file makes inspection fail at once, if it does: a video must be readable as it stands. */
  function Rejection(p: Parsed): Option<Outcome> {
    if !p.File? || !p.playable then None
    else if p.encrypted then Some(EncryptedArchive)
    else if p.solid then Some(SolidUnsupported)
    else if !p.stored then Some(CompressionUnsupported)
    else None
  }

  /** The answer at the end of a walk. */
  function Verdict(stop: Stop, files: seq<Parsed>, playableFound: bool): Outcome {
    match stop
    case Locked => EncryptedArchive
    case Broken => Crash
    case Ended => if files == [] then HeadersInvalid else if !playableFound then VideoNotFound(files) else Found(files)
  }

  /** The answer given what the headers say: the first rejected file decides, otherwise the end of the walk. */
  function Answer(parsed: seq<Parsed>, stop: Stop, files: seq<Parsed>, playableFound: bool): Outcome {
    if parsed == [] then Verdict(stop, files, playableFound)
    else
      var p := parsed[0];
      if Rejection(p).Some? then Rejection(p).value
      else Answer(parsed[1..], stop, if p.File? then files + [p] else files, playableFound || (p.File? && p.playable))
  }

  predicate AllInside(raw: seq<byte>, headers: seq<FileHeader>) {
    forall h | h in headers :: Inside(raw, h)
  }

  function ParsedAll(raw: seq<byte>, headers: seq<FileHeader>, video: seq<byte> -> bool): (parsed: seq<Parsed>)
    requires AllInside(raw, headers)
    ensures |parsed| == |headers| && forall i | 0 <= i < |headers| :: parsed[i] == ParsedAt(raw, headers[i], video)
  {
    if headers == [] then [] else [ParsedAt(raw, headers[0], video)] + ParsedAll(raw, headers[1..], video)
  }

  lemma {:induction false} HeadersInside(raw: seq<byte>, pos: nat)
    ensures AllInside(raw, WalkIn(Blocks(raw, pos)).headers)
    decreases |raw| - pos
  {
    if BlockAt(raw, pos).Some? {
      BlockBounds(raw, pos);
      HeadersInside(raw, Next(BlockAt(raw, pos).value));
      assert Blocks(raw, pos)[1..] == Blocks(raw, Next(BlockAt(raw, pos).value));
    }
  }

  function WalkOf(raw: seq<byte>): (walk: Walk)
    ensures AllInside(raw, walk.headers)
  {
    HeadersInside(raw, 8);
    WalkIn(Blocks(raw, 8))
  }

  /** The answer for a prefix; `video` says which names are those of videos. */
  function Inspection(raw: seq<byte>, video: seq<byte> -> bool): Outcome {
    if !Signed(raw) then HeadersInvalid
    else Answer(ParsedAll(raw, WalkOf(raw).headers, video), WalkOf(raw).stop, [], false)
  }

  /** Inspect a volume prefix. `Crash` stands for the program's out-of-bounds slice. */
  method InspectRar5(raw: seq<byte>, video: seq<byte> -> bool) returns (outcome: Outcome)
    ensures outcome == Inspection(raw, video)
  {
    if |raw| < 8 || raw[..8] != SIGNATURE {
      return HeadersInvalid;
    }
    hide Blocks, ParsedAt, Signed;
    var pos := 8;
    var files: seq<Parsed>, playableFound := [], false;
    ghost var blocks := Blocks(raw, pos);
    HeadersInside(raw, pos);
    while true
      invariant blocks == Blocks(raw, pos) && AllInside(raw, WalkIn(blocks).headers)
      invariant Answer(ParsedAll(raw, WalkIn(blocks).headers, video), WalkIn(blocks).stop, files, playableFound)
             == Inspection(raw, video)
      decreases |raw| - pos
    {
      var block := ReadNext(raw, pos, blocks);
      if block.None? {
        break;
      }
      var b := block.value;
      if b.headType == 4 {
        return if b.fieldsPos > b.bodyEnd then Crash else EncryptedArchive;
      }
      if b.headType == 5 {
        break;
      }
      if b.headType == 2 {
        assert WalkIn(blocks).headers[0] == HeaderOf(b);
        var p := ParseFileHeader(raw, HeaderOf(b), video);
        AnswerStep(raw, blocks, video, files, playableFound);
        if p.File? {
          files := files + [p];
          if p.playable {
            playableFound := true;
            if p.encrypted {
              return EncryptedArchive;
            }
            if p.solid {
              return SolidUnsupported;
            }
            if !p.stored {
              return CompressionUnsupported;
            }
          }
        }
      }
      pos := Next(b);
      blocks := blocks[1..];
    }
    if |files| == 0 {
      return HeadersInvalid;
    }
    if !playableFound {
      return VideoNotFound(files);
    }
    return Found(files);
  }

  lemma AnswerStep(raw: seq<byte>, blocks: seq<Block>, video: seq<byte> -> bool, files: seq<Parsed>,
                   playableFound: bool)
    requires blocks != [] && blocks[0].headType == 2 && AllInside(raw, WalkIn(blocks).headers)
    ensures Inside(raw, HeaderOf(blocks[0])) && AllInside(raw, WalkIn(blocks[1..]).headers)
    ensures var p, rest := ParsedAt(raw, HeaderOf(blocks[0]), video), WalkIn(blocks[1..]);
      Answer(ParsedAll(raw, WalkIn(blocks).headers, video), WalkIn(blocks).stop, files, playableFound)
      == if Rejection(p).Some? then Rejection(p).value
         else Answer(ParsedAll(raw, rest.headers, video), rest.stop,
                     if p.File? then files + [p] else files, playableFound || (p.File? && p.playable))
  {
    hide ParsedAt;
    var walk, rest := WalkIn(blocks), WalkIn(blocks[1..]);
    assert walk.headers[0] in walk.headers && walk.headers[1..] == rest.headers;
    assert ParsedAll(raw, walk.headers, video)[1..] == ParsedAll(raw, rest.headers, video);
  }

  // ----- When the program crashes ------------------------------------------------------------------------------

  lemma {:induction false} AnswerExactly(parsed: seq<Parsed>, stop: Stop, files: seq<Parsed>, playableFound: bool)
    ensures Answer(parsed, stop, files, playableFound).Crash? <==>
              stop.Broken? && forall p | p in parsed :: Rejection(p).None?
  {
    if parsed != [] && Rejection(parsed[0]).None? {
      var p := parsed[0];
      AnswerExactly(parsed[1..], stop, if p.File? then files + [p] else files,
                    playableFound || (p.File? && p.playable));
    }
  }

  /** The program answers unless the walk gets to an encryption header whose general fields run past its end,
      with no rejected video before it. */
  lemma CrashExactly(raw: seq<byte>, video: seq<byte> -> bool)
    ensures Inspection(raw, video).Crash? <==>
      && Signed(raw) && WalkOf(raw).stop.Broken?
      && forall h | h in WalkOf(raw).headers :: Rejection(ParsedAt(raw, h, video)).None?
  {
    hide ParsedAt, WalkIn, Blocks;
    if Signed(raw) {
      var headers := WalkOf(raw).headers;
      var parsed := ParsedAll(raw, headers, video);
      AnswerExactly(parsed, WalkOf(raw).stop, [], false);
      if forall h | h in headers :: Rejection(ParsedAt(raw, h, video)).None? {
        assert forall i | 0 <= i < |headers| :: headers[i] in headers;
      } else {
        var h :| h in headers && Rejection(ParsedAt(raw, h, video)).Some?;
        var i :| 0 <= i < |headers| && headers[i] == h;
        assert parsed[i] in parsed;
      }
    }
  }

  // ----- Agreement of the two walks ------------------------------------------------------------------------------

  lemma {:induction false} WalksAgreeIn(blocks: seq<Block>)
    ensures WalkIn(blocks).headers != [] ==> FindIn(blocks) == Some(WalkIn(blocks).headers[0].dataStart)
    ensures WalkIn(blocks).headers == [] && WalkIn(blocks).stop.Ended? ==> FindIn(blocks) == None
  {
    if blocks != [] {
      WalksAgreeIn(blocks[1..]);
    }
  }

  /** The two walks agree: when the inspection visits a file header, the other walk finds the data start
      of the first one; when it visits none and met no encryption header, the other walk finds nothing. */
  lemma WalksAgree(raw: seq<byte>)
    requires Signed(raw)
    ensures WalkOf(raw).headers != [] ==> DataStart(raw) == Some(WalkOf(raw).headers[0].dataStart)
    ensures WalkOf(raw).headers == [] && WalkOf(raw).stop.Ended? ==> DataStart(raw) == None
  {
    WalksAgreeIn(Blocks(raw, 8));
  }

  lemma {:induction false} WalkGrowsIn(blocks: seq<Block>, more: seq<Block>)
    requires blocks <= more
    ensures WalkIn(blocks).headers <= WalkIn(more).headers
    ensures !WalkIn(blocks).stop.Ended? ==> WalkIn(more) == WalkIn(blocks)
  {
    if blocks != [] {
      WalkGrowsIn(blocks[1..], more[1..]);
    }
  }

  /** A longer prefix never loses a header: the walk visits the same ones first, and one that stopped at
      an encryption header stops there again. */
  lemma WalkGrows(raw: seq<byte>, more: seq<byte>)
    requires raw <= more
    ensures WalkOf(raw).headers <= WalkOf(more).headers
    ensures !WalkOf(raw).stop.Ended? ==> WalkOf(more) == WalkOf(raw)
  {
    BlocksGrow(raw, more, 8);
    WalkGrowsIn(Blocks(raw, 8), Blocks(more, 8));
  }

  // ----- Which answers are final -----------------------------------------------------------------------------------

  /** A header with another block behind it reads the same on every extension. */
  lemma FollowedDecided(raw: seq<byte>, b: Block)
    requires b.bodyEnd <= |raw| && BlockAt(raw, Next(b)).Some?
    ensures !Undecided(raw, HeaderOf(b))
  {
    hide VintAt, ScanFrom, GeneralAt;
    var scan := ScanFrom(raw, ExtraStart(HeaderOf(b)), b.bodyEnd);
    if scan.Cut? {
      CutIs(raw, ExtraStart(HeaderOf(b)), b.bodyEnd);
      CutBehind(raw, scan.at, Next(b));
    }
  }

  /** Behind a cut integer no block can be read. */
  lemma CutBehind(raw: seq<byte>, at: nat, next: nat)
    requires at + MAX_VINT_BYTES > |raw| && VintAt(raw, at).size == 0 && at <= next
    ensures FrameAt(raw, next).None?
  {
    CutDigits(raw, at, 0);
    DigitsRunOn(raw, raw, next + 4, 0);
    VintAtBounds(raw, next + 4);
  }

  lemma {:induction false} HeadersDecided(raw: seq<byte>, pos: nat, j: nat)
    requires var walk := WalkIn(Blocks(raw, pos)); j < |walk.headers| && (j + 1 < |walk.headers| || !walk.stop.Ended?)
    ensures !Undecided(raw, WalkIn(Blocks(raw, pos)).headers[j])
    decreases |raw| - pos
  {
    hide Undecided;
    var b := BlockAt(raw, pos).value;
    BlockBounds(raw, pos);
    var blocks, rest := Blocks(raw, pos), Blocks(raw, Next(b));
    assert blocks == [b] + rest && blocks[1..] == rest;
    if b.headType != 2 {
      HeadersDecided(raw, Next(b), j);
    } else if j > 0 {
      HeadersDecided(raw, Next(b), j - 1);
    } else {
      assert rest != [];
      FollowedDecided(raw, b);
    }
  }

  /** The first rejected file, or the number of files. */
  function RejectedAt(parsed: seq<Parsed>): nat {
    if parsed == [] || Rejection(parsed[0]).Some? then 0 else 1 + RejectedAt(parsed[1..])
  }

  lemma {:induction false} RejectedFirst(parsed: seq<Parsed>, stop: Stop, files: seq<Parsed>, playableFound: bool)
    ensures var k := RejectedAt(parsed);
      && k <= |parsed| && (forall j | 0 <= j < k :: Rejection(parsed[j]).None?)
      && (k < |parsed| ==>
            Rejection(parsed[k]).Some? && Answer(parsed, stop, files, playableFound) == Rejection(parsed[k]).value)
      && (k == |parsed| && stop.Ended? ==> !Rejected(Answer(parsed, stop, files, playableFound)))
  {
    if parsed != [] && Rejection(parsed[0]).None? {
      var p := parsed[0];
      RejectedFirst(parsed[1..], stop, if p.File? then files + [p] else files,
                    playableFound || (p.File? && p.playable));
    }
  }

  lemma {:induction false} RejectedIs(parsed: seq<Parsed>, k: nat)
    requires k < |parsed| && Rejection(parsed[k]).Some? && forall j | 0 <= j < k :: Rejection(parsed[j]).None?
    ensures RejectedAt(parsed) == k
  {
    if k > 0 {
      RejectedIs(parsed[1..], k - 1);
    }
  }

  /** The file that decided for rejection can still turn out to be encrypted. */
  predicate Wavers(raw: seq<byte>, video: seq<byte> -> bool) {
    var headers := WalkOf(raw).headers;
    var parsed := ParsedAll(raw, headers, video);
    var k := RejectedAt(parsed);
    k < |headers| && parsed[k].File? && !parsed[k].encrypted && Undecided(raw, headers[k])
  }

  predicate Rejected(outcome: Outcome) {
    outcome.EncryptedArchive? || outcome.SolidUnsupported? || outcome.CompressionUnsupported?
  }

  /** What a rejection becomes when more data comes. */
  lemma RejectionGrows(raw: seq<byte>, more: seq<byte>, video: seq<byte> -> bool)
    requires raw <= more && Rejected(Inspection(raw, video))
    ensures Inspection(more, video) == Inspection(raw, video)
            || (Wavers(raw, video) && Inspection(more, video).EncryptedArchive?)
  {
    hide ParsedAt, WalkIn, Blocks, Undecided, Answer, RejectedAt;
    SignedStays(raw, more);
    WalkGrows(raw, more);
    var walk, longer := WalkOf(raw), WalkOf(more);
    var parsed, again := ParsedAll(raw, walk.headers, video), ParsedAll(more, longer.headers, video);
    RejectedFirst(parsed, walk.stop, [], false);
    RejectedFirst(again, longer.stop, [], false);
    var k := RejectedAt(parsed);
    assert k < |parsed| || !walk.stop.Ended?;
    forall j: nat | j < k ensures again[j] == parsed[j] {
      HeadersDecided(raw, 8, j);
      assert walk.headers[j] in walk.headers && longer.headers[j] == walk.headers[j];
      ParsedGrows(raw, more, walk.headers[j], video);
    }
    if k < |parsed| {
      assert walk.headers[k] in walk.headers && longer.headers[k] == walk.headers[k];
      ParsedGrows(raw, more, walk.headers[k], video);
      RejectedIs(again, k);
    } else {
      assert again == parsed;
    }
  }

  lemma SignedStays(raw: seq<byte>, more: seq<byte>)
    requires raw <= more && Signed(raw)
    ensures Signed(more)
  {
    assert more[..8] == raw[..8];
  }

  /** A wavering rejection has an extension on which the archive counts as encrypted instead. */
  lemma WaveringTurns(raw: seq<byte>, video: seq<byte> -> bool) returns (more: seq<byte>)
    requires Rejected(Inspection(raw, video)) && Wavers(raw, video)
    ensures raw <= more && Inspection(more, video).EncryptedArchive? && !Inspection(raw, video).EncryptedArchive?
  {
    hide ParsedAt, WalkIn, Blocks, Undecided, Answer, RejectedAt;
    var walk := WalkOf(raw);
    var parsed := ParsedAll(raw, walk.headers, video);
    var k := RejectedAt(parsed);
    RejectedFirst(parsed, walk.stop, [], false);
    assert walk.headers[k] in walk.headers;
    more := UndecidedTurns(raw, walk.headers[k], video);
    SignedStays(raw, more);
    WalkGrows(raw, more);
    var longer := WalkOf(more);
    var again := ParsedAll(more, longer.headers, video);
    forall j: nat | j < k ensures again[j] == parsed[j] {
      HeadersDecided(raw, 8, j);
      assert walk.headers[j] in walk.headers && longer.headers[j] == walk.headers[j];
      ParsedGrows(raw, more, walk.headers[j], video);
    }
    assert longer.headers[k] == walk.headers[k];
    RejectedIs(again, k);
    RejectedFirst(again, longer.stop, [], false);
  }

  /** A rejection found on a prefix is the answer for every extension if and only if it does not waver: the
      file it rests on is encrypted already, or its extra area is not cut in the middle of a record type that
      may still become 1. */
  lemma RejectionFinalExactly(raw: seq<byte>, video: seq<byte> -> bool)
    requires Rejected(Inspection(raw, video))
    ensures (forall more | raw <= more :: Inspection(more, video) == Inspection(raw, video)) <==> !Wavers(raw, video)
  {
    hide Inspection, Wavers;
    if Wavers(raw, video) {
      var more := WaveringTurns(raw, video);
    } else {
      forall more | raw <= more ensures Inspection(more, video) == Inspection(raw, video) {
        RejectionGrows(raw, more, video);
      }
    }
  }

  // ----- Examples ------------------------------------------------------------------------------------------------

  lemma OneDigit(raw: seq<byte>, pos: nat)
    requires pos < |raw| && raw[pos] as int < 0x80
    ensures VintAt(raw, pos) == Vint(raw[pos] as int, 1)
  {
  }

  /** An encryption block of one byte: its flags are read behind its end, and its fields would start there. */
  const BROKEN: seq<byte> := SIGNATURE + [0, 0, 0, 0, 1, 4, 0]

  lemma CrashExample(video: seq<byte> -> bool)
    ensures Inspection(BROKEN, video) == Crash
  {
    hide VintAt, Blocks, Answer;
    var raw := BROKEN;
    assert |raw| == 15 && raw[..8] == SIGNATURE && raw[12] == 1 && raw[13] == 4 && raw[14] == 0;
    OneDigit(raw, 12);
    OneDigit(raw, 13);
    OneDigit(raw, 14);
    assert FrameAt(raw, 8) == Some(Frame(13, 14));
    assert GeneralAt(raw, 13) == Some(General(4, 0, 0, 15));
    FirstBlock(raw, 8);
    AnswerNothing(Broken);
  }

  lemma FirstBlock(raw: seq<byte>, pos: nat)
    requires BlockAt(raw, pos).Some?
    ensures Blocks(raw, pos) == [BlockAt(raw, pos).value] + Blocks(raw, Next(BlockAt(raw, pos).value))
  {
  }

  lemma AnswerNothing(stop: Stop)
    ensures Answer([], stop, [], false) == Verdict(stop, [], false)
  {
  }

  /** A header of one solid stored video, whose extra area is the size of a record and nothing else. */
  const SOLID: seq<byte> := SIGNATURE + [0, 0, 0, 0, 15, 2, 1, 1, 0, 5, 0, 0x40, 0, 5, 0x61, 0x2e, 0x6d, 0x6b, 0x76, 2]
  const NAME: seq<byte> := [0x61, 0x2e, 0x6d, 0x6b, 0x76]

  lemma SolidBlocks(raw: seq<byte>)
    requires SOLID <= raw && |raw| <= 29
    ensures Signed(raw) && Blocks(raw, 8) == [Block(2, 16, 28, 1, 0)]
    ensures FieldsAt(raw, 16, 27) == Some(Fields(false, 5, true, 0, NAME))
  {
    hide Blocks, FrameAt, GeneralAt, FieldsAt;
    assert raw[..8] == SOLID[..8] == SIGNATURE;
    SolidHeader(raw);
    FirstBlock(raw, 8);
    NoBlockBehind(raw, 28);
    SolidFields(raw);
  }

  lemma SolidHeader(raw: seq<byte>)
    requires SOLID <= raw
    ensures FrameAt(raw, 8) == Some(Frame(13, 28)) && GeneralAt(raw, 13) == Some(General(2, 1, 0, 16))
  {
    hide VintAt;
    assert raw[12] == SOLID[12] == 15 && raw[13] == SOLID[13] == 2 && raw[14] == SOLID[14] == 1
        && raw[15] == SOLID[15] == 1;
    OneDigit(raw, 12);
    OneDigit(raw, 13);
    OneDigit(raw, 14);
    OneDigit(raw, 15);
    assert KindAt(raw, 13) == Some(Kind(2, 1, 15));
  }

  lemma NoBlockBehind(raw: seq<byte>, pos: nat)
    requires pos + 5 > |raw|
    ensures Blocks(raw, pos) == []
  {
  }

  lemma SolidFields(raw: seq<byte>)
    requires SOLID <= raw
    ensures FieldsAt(raw, 16, 27) == Some(Fields(false, 5, true, 0, NAME))
  {
    hide VintAt;
    assert raw[16] == SOLID[16] == 0 && raw[17] == SOLID[17] == 5 && raw[18] == SOLID[18] == 0;
    assert raw[19] == SOLID[19] == 0x40 && raw[20] == SOLID[20] == 0 && raw[21] == SOLID[21] == 5;
    OneDigit(raw, 16);
    OneDigit(raw, 17);
    OneDigit(raw, 18);
    OneDigit(raw, 19);
    OneDigit(raw, 20);
    OneDigit(raw, 21);
    assert OpeningAt(raw, 16, 27) == Some(Opening(0, 5, 19));
    assert raw[22..27] == SOLID[22..27] == NAME;
    assert ClosingAt(raw, 19, 27) == Some(Closing(0x40, NAME));
  }

  /** On the prefix that ends with that header the archive is rejected as solid; one more byte 1, of the data
      behind the header, is read as the type of an encryption record, and the archive counts as encrypted. */
  lemma WaveringExample(video: seq<byte> -> bool)
    requires video(NAME)
    ensures Inspection(SOLID, video) == SolidUnsupported && Inspection(SOLID + [1], video) == EncryptedArchive
    ensures Wavers(SOLID, video)
  {
    SolidScan();
    SolidAnswers(SOLID, video, false);
    SolidAnswers(SOLID + [1], video, true);
    RejectionGrows(SOLID, SOLID + [1], video);
  }

  lemma SolidScan()
    ensures ScanFrom(SOLID, 27, 28) == Cut(28) && ScanFrom(SOLID + [1], 27, 28) == Encrypted
  {
    hide VintAt;
    OneDigit(SOLID, 27);
    OneDigit(SOLID + [1], 27);
    OneDigit(SOLID + [1], 28);
    assert VintAt(SOLID, 28).size == 0 by {
      VintAtBounds(SOLID, 28);
    }
  }

  lemma SolidAnswers(raw: seq<byte>, video: seq<byte> -> bool, encrypted: bool)
    requires SOLID <= raw && |raw| <= 29 && video(NAME) && ScanFrom(raw, 27, 28).Encrypted? == encrypted
    ensures Inspection(raw, video) == if encrypted then EncryptedArchive else SolidUnsupported
  {
    hide Blocks, FieldsAt, ScanFrom;
    SolidBlocks(raw);
    var b := Block(2, 16, 28, 1, 0);
    assert WalkIn([b]) == Walk([HeaderOf(b)], Ended) by {
      assert [b][1..] == [];
    }
    assert ParsedAt(raw, HeaderOf(b), video) == File(NAME, true, true, true, encrypted, 5, 28, 0);
    assert ParsedAll(raw, [HeaderOf(b)], video) == [File(NAME, true, true, true, encrypted, 5, 28, 0)];
  }
}
