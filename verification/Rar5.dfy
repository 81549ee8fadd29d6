/** RAR5 volume headers: the variable-length integer, the walk that looks for the first file's data
    (`rar5FindDataStart`). The byte layout is that of the RAR 5.0 archive format technical
    note, sections "Data types" and "General archive block format". */
module Rar5 {
  import opened Base128
  import opened Bytes

  datatype Option<+T> = None | Some(value: T)

  const SIGNATURE: seq<byte> := [0x52, 0x61, 0x72, 0x21, 0x1a, 0x07, 0x01, 0x00]
  const MAX_VINT_BYTES := 8
  const VINT_LIMIT := 0x100_0000_0000_0000

  // ----- Variable-length integers -----------------------------------------------------------------

  /** `size` is 0 when the bytes run out or a ninth byte would be needed. */
  datatype Vint = Vint(value: int, size: nat)

  /** The integer whose digit `i` is at pos + i. */
  function VintFrom(data: seq<byte>, pos: nat, i: nat): Vint
    decreases MAX_VINT_BYTES - i
  {
    if i >= MAX_VINT_BYTES || pos + i >= |data| then Vint(0, 0)
    else
      var b := data[pos + i] as int;
      if b < 0x80 then Vint(b, i + 1)
      else
        var rest := VintFrom(data, pos, i + 1);
        if rest.size == 0 then rest else Vint(b - 0x80 + 0x80 * rest.value, rest.size)
  }

  function VintAt(data: seq<byte>, pos: nat): Vint { VintFrom(data, pos, 0) }

  /** `low` in the digits below `i`, then the rest. */
  function Joined(low: int, i: nat, rest: Vint): Vint {
    if rest.size == 0 then Vint(0, 0) else Vint(low + Pow128(i) * rest.value, rest.size)
  }

  /** Read one integer. The program collects digits with shifts and a bitwise or; the digits do not
      overlap, so this is a sum. */
  method ReadVint(data: seq<byte>, pos: nat) returns (v: Vint)
    ensures v == VintAt(data, pos)
  {
    var result, shift := 0, 1;
    for i := 0 to MAX_VINT_BYTES
      invariant shift == Pow128(i)
      invariant Joined(result, i, VintFrom(data, pos, i)) == VintAt(data, pos)
    {
      if pos + i >= |data| {
        return Vint(0, 0);
      }
      var b := data[pos + i] as int;
      JoinedStep(data, pos, i, result);
      result := result + (b % 0x80) * shift;
      shift := 0x80 * shift;
      if b < 0x80 {
        return Vint(result, i + 1);
      }
    }
    return Vint(0, 0);
  }

  lemma JoinedStep(data: seq<byte>, pos: nat, i: nat, low: int)
    requires i < MAX_VINT_BYTES && pos + i < |data|
    ensures var b := data[pos + i] as int;
      Joined(low, i, VintFrom(data, pos, i))
      == if b < 0x80 then Vint(low + (b % 0x80) * Pow128(i), i + 1)
         else Joined(low + (b % 0x80) * Pow128(i), i + 1, VintFrom(data, pos, i + 1))
  {
    var b, rest := data[pos + i] as int, VintFrom(data, pos, i + 1);
    if b < 0x80 {
      assert Pow128(i) * b == b * Pow128(i);
    } else {
      assert b - 0x80 == b % 0x80;
      Distribute(Pow128(i), b % 0x80, rest.value);
    }
  }

  lemma {:induction false} VintReadsEncoded(data: seq<byte>, pos: nat, v: nat, i: nat)
    requires PartAt(data, pos + i, Encoded(v)) && i + |Encoded(v)| <= MAX_VINT_BYTES
    ensures VintFrom(data, pos, i) == Vint(v, i + |Encoded(v)|)
    decreases v
  {
    assert Encoded(v)[0] == data[pos + i + 0];
    if v >= 0x80 {
      PartAtConcat(data, pos + i, [(0x80 + v % 0x80) as byte], Encoded(v / 0x80));
      VintReadsEncoded(data, pos, v / 0x80, i + 1);
    }
  }

  /** Reading inverts encoding for every value below 2^56, whatever follows. */
  lemma VintRoundTrip(data: seq<byte>, pos: nat, v: nat)
    requires v < VINT_LIMIT && PartAt(data, pos, Encoded(v))
    ensures VintAt(data, pos) == Vint(v, |Encoded(v)|)
  {
    assert Pow128(8) == VINT_LIMIT;
    EncodedLength(v, 8);
    VintReadsEncoded(data, pos, v, 0);
  }

  /** What was read lies inside the data, is at most eight bytes long, and fits 56 bits. */
  lemma {:induction false} VintBounds(data: seq<byte>, pos: nat, i: nat)
    requires i <= MAX_VINT_BYTES
    ensures var v := VintFrom(data, pos, i);
      && 0 <= v.value < Pow128(MAX_VINT_BYTES - i)
      && (v.size > 0 ==> i < v.size <= MAX_VINT_BYTES && pos + v.size <= |data|)
    decreases MAX_VINT_BYTES - i
  {
    if i < MAX_VINT_BYTES {
      VintBounds(data, pos, i + 1);
      assert Pow128(MAX_VINT_BYTES - i) == 0x80 * Pow128(MAX_VINT_BYTES - (i + 1));
    }
  }

  /** More data behind a complete integer does not change it. */
  lemma {:induction false} VintStable(data: seq<byte>, more: seq<byte>, pos: nat, i: nat)
    requires data <= more && VintFrom(data, pos, i).size > 0
    ensures VintFrom(more, pos, i) == VintFrom(data, pos, i)
    decreases MAX_VINT_BYTES - i
  {
    if data[pos + i] as int >= 0x80 {
      VintStable(data, more, pos, i + 1);
    }
  }

  lemma VintAtBounds(data: seq<byte>, pos: nat)
    ensures VintAt(data, pos).value >= 0
    ensures VintAt(data, pos).size > 0 ==> pos + VintAt(data, pos).size <= |data|
  {
    VintBounds(data, pos, 0);
  }

  lemma VintAtStable(data: seq<byte>, more: seq<byte>, pos: nat)
    requires data <= more && VintAt(data, pos).size > 0
    ensures VintAt(more, pos) == VintAt(data, pos)
  {
    VintStable(data, more, pos, 0);
  }

  // ----- The general block header ------------------------------------------------------------------------

  /** Checksum and header size: the header runs from `body` to `bodyEnd`. */
  datatype Frame = Frame(body: nat, bodyEnd: nat)

  /** The frame whose checksum starts at `pos`, unless it is cut off or its header size is 0. */
  function FrameAt(raw: seq<byte>, pos: nat): Option<Frame> {
    if pos + 5 > |raw| then None
    else
      var size := VintAt(raw, pos + 4);
      if size.size == 0 || size.value <= 0 then None
      else
        var body := pos + 4 + size.size;
        if body + size.value > |raw| then None else Some(Frame(body, body + size.value))
  }

  /** The block's type and flags, and the position behind them. */
  datatype Kind = Kind(headType: int, flags: int, next: nat)

  function KindAt(raw: seq<byte>, pos: nat): Option<Kind> {
    var headType := VintAt(raw, pos);
    if headType.size == 0 then None
    else
      var flags := VintAt(raw, pos + headType.size);
      if flags.size == 0 then None
      else Some(Kind(headType.value, flags.value, pos + headType.size + flags.size))
  }

  predicate HasExtra(flags: int) { flags % 2 == 1 }

  predicate HasData(flags: int) { flags / 2 % 2 == 1 }

  /** A size field, present only when its flag is set. */
  datatype SizeField = SizeField(size: nat, next: nat)

  function SizeAt(raw: seq<byte>, pos: nat, present: bool): Option<SizeField> {
    if !present then Some(SizeField(0, pos))
    else
      var v := VintAt(raw, pos);
      if v.size == 0 || v.value < 0 then None else Some(SizeField(v.value, pos + v.size))
  }

  /** Type, flags and the two optional sizes, and the position behind them. */
  datatype General = General(headType: int, extraSize: nat, dataSize: nat, next: nat)

  function GeneralAt(raw: seq<byte>, pos: nat): Option<General> {
    var kind := KindAt(raw, pos);
    if kind.None? then None
    else
      var extra := SizeAt(raw, kind.value.next, HasExtra(kind.value.flags));
      if extra.None? then None
      else
        var data := SizeAt(raw, extra.value.next, HasData(kind.value.flags));
        if data.None? then None
        else Some(General(kind.value.headType, extra.value.size, data.value.size, data.value.next))
  }

  /** One block: its type, where its type-specific fields begin, where its header ends, the size of its
      extra area (the last part of the header) and of the data area that follows the header. */
  datatype Block = Block(headType: int, fieldsPos: nat, bodyEnd: nat, extraSize: nat, dataSize: nat)

  /** The block at `pos`, unless any of its general fields is cut off. */
  function BlockAt(raw: seq<byte>, pos: nat): Option<Block> {
    var frame := FrameAt(raw, pos);
    if frame.None? then None
    else
      var g := GeneralAt(raw, frame.value.body);
      if g.None? then None
      else Some(Block(g.value.headType, g.value.next, frame.value.bodyEnd, g.value.extraSize, g.value.dataSize))
  }

  lemma FrameBounds(raw: seq<byte>, pos: nat)
    requires FrameAt(raw, pos).Some?
    ensures pos + 5 < FrameAt(raw, pos).value.bodyEnd <= |raw|
  {
    VintAtBounds(raw, pos + 4);
  }

  lemma FrameStable(raw: seq<byte>, more: seq<byte>, pos: nat)
    requires raw <= more && FrameAt(raw, pos).Some?
    ensures FrameAt(more, pos) == FrameAt(raw, pos)
  {
    VintAtStable(raw, more, pos + 4);
  }

  lemma KindStable(raw: seq<byte>, more: seq<byte>, pos: nat)
    requires raw <= more && KindAt(raw, pos).Some?
    ensures KindAt(more, pos) == KindAt(raw, pos)
  {
    VintAtStable(raw, more, pos);
    VintAtStable(raw, more, pos + VintAt(raw, pos).size);
  }

  lemma SizeStable(raw: seq<byte>, more: seq<byte>, pos: nat, present: bool)
    requires raw <= more && SizeAt(raw, pos, present).Some?
    ensures SizeAt(more, pos, present) == SizeAt(raw, pos, present)
  {
    if present {
      VintAtStable(raw, more, pos);
    }
  }

  lemma BlockBounds(raw: seq<byte>, pos: nat)
    requires BlockAt(raw, pos).Some?
    ensures pos + 5 < BlockAt(raw, pos).value.bodyEnd <= |raw|
  {
    FrameBounds(raw, pos);
  }

  lemma GeneralStable(raw: seq<byte>, more: seq<byte>, pos: nat)
    requires raw <= more && GeneralAt(raw, pos).Some?
    ensures GeneralAt(more, pos) == GeneralAt(raw, pos)
  {
    KindStable(raw, more, pos);
    var kind := KindAt(raw, pos).value;
    SizeStable(raw, more, kind.next, HasExtra(kind.flags));
    SizeStable(raw, more, SizeAt(raw, kind.next, HasExtra(kind.flags)).value.next, HasData(kind.flags));
  }

  /** A block that parses on a prefix parses the same on the whole. */
  lemma BlockStable(raw: seq<byte>, more: seq<byte>, pos: nat)
    requires raw <= more && BlockAt(raw, pos).Some?
    ensures BlockAt(more, pos) == BlockAt(raw, pos)
  {
    FrameStable(raw, more, pos);
    GeneralStable(raw, more, FrameAt(raw, pos).value.body);
  }

  /** Read an optional size field. */
  method ReadSize(raw: seq<byte>, pos: nat, present: bool) returns (result: Option<SizeField>)
    ensures result == SizeAt(raw, pos, present)
  {
    if !present {
      return Some(SizeField(0, pos));
    }
    VintAtBounds(raw, pos);
    var v := ReadVint(raw, pos);
    if v.size == 0 {
      return None;
    }
    return Some(SizeField(v.value, pos + v.size));
  }

  /** Read the general fields of a block header. */
  method ReadGeneral(raw: seq<byte>, start: nat) returns (result: Option<General>)
    ensures result == GeneralAt(raw, start)
  {
    hide VintAt;
    var headType := ReadVint(raw, start);
    if headType.size == 0 {
      return None;
    }
    var headFlags := ReadVint(raw, start + headType.size);
    if headFlags.size == 0 {
      return None;
    }
    var extraArea := ReadSize(raw, start + headType.size + headFlags.size, headFlags.value % 2 == 1);
    if extraArea.None? {
      return None;
    }
    var dataArea := ReadSize(raw, extraArea.value.next, headFlags.value / 2 % 2 == 1);
    if dataArea.None? {
      return None;
    }
    return Some(General(headType.value, extraArea.value.size, dataArea.value.size, dataArea.value.next));
  }

  /** The steps both walks repeat at every block: skip the checksum, read the header size, check that the
      header is all there, read its general fields. */
  method ReadBlock(raw: seq<byte>, start: nat) returns (result: Option<Block>)
    requires start + 5 <= |raw|
    ensures result == BlockAt(raw, start)
  {
    hide VintAt, GeneralAt;
    var headerSize := ReadVint(raw, start + 4);
    if headerSize.size == 0 || headerSize.value <= 0 {
      return None;
    }
    var pos := start + 4 + headerSize.size;
    var bodyEnd := pos + headerSize.value;
    if bodyEnd > |raw| {
      return None;
    }
    var g := ReadGeneral(raw, pos);
    if g.None? {
      return None;
    }
    return Some(Block(g.value.headType, g.value.next, bodyEnd, g.value.extraSize, g.value.dataSize));
  }

  // ----- The blocks of a volume prefix --------------------------------------------------------------------

  /** The blocks from `pos` on, as far as they can be parsed. */
  function Blocks(raw: seq<byte>, pos: nat): seq<Block>
    decreases |raw| - pos
  {
    var block := BlockAt(raw, pos);
    if block.None? then []
    else
      BlockBounds(raw, pos);
      [block.value] + Blocks(raw, Next(block.value))
  }

  /** Where the block behind `b` starts. */
  function Next(b: Block): nat { b.bodyEnd + b.dataSize }

  /** A longer prefix parses to the same blocks first. */
  lemma {:induction false} BlocksGrow(raw: seq<byte>, more: seq<byte>, pos: nat)
    requires raw <= more
    ensures Blocks(raw, pos) <= Blocks(more, pos)
    decreases |raw| - pos
  {
    if BlockAt(raw, pos).Some? {
      BlockBounds(raw, pos);
      BlockStable(raw, more, pos);
      BlocksGrow(raw, more, Next(BlockAt(raw, pos).value));
    }
  }

  lemma {:induction false} BlocksInside(raw: seq<byte>, pos: nat, k: nat)
    requires k < |Blocks(raw, pos)|
    ensures pos < Blocks(raw, pos)[k].bodyEnd <= |raw|
    decreases k
  {
    BlockBounds(raw, pos);
    if k > 0 {
      BlocksInside(raw, Next(BlockAt(raw, pos).value), k - 1);
    }
  }

  /** One step of either walk: read the block at `pos`, or find that none can be read. `blocks` is what
      the walk has still to see. */
  method ReadNext(raw: seq<byte>, pos: nat, ghost blocks: seq<Block>) returns (result: Option<Block>)
    requires blocks == Blocks(raw, pos)
    ensures result.None? <==> blocks == []
    ensures result.Some? ==> blocks[0] == result.value && pos < Next(result.value) && pos < |raw|
    ensures result.Some? ==> blocks[1..] == Blocks(raw, Next(result.value))
  {
    if pos + 5 > |raw| {
      return None;
    }
    result := ReadBlock(raw, pos);
    if result.Some? {
      BlockBounds(raw, pos);
    }
  }

  // ----- rar5FindDataStart --------------------------------------------------------------------------------

  predicate Signed(raw: seq<byte>) { |raw| >= 8 && raw[..8] == SIGNATURE }

  /** The end of the first file header, unless an end-of-archive block comes first. */
  function FindIn(blocks: seq<Block>): Option<nat> {
    if blocks == [] || blocks[0].headType == 5 then None
    else if blocks[0].headType == 2 then Some(blocks[0].bodyEnd)
    else FindIn(blocks[1..])
  }

  function DataStart(raw: seq<byte>): Option<nat> {
    if Signed(raw) then FindIn(Blocks(raw, 8)) else None
  }

  method FindDataStart(raw: seq<byte>) returns (result: Option<nat>)
    ensures result == DataStart(raw)
  {
    if |raw| < 8 || raw[..8] != SIGNATURE {
      return None;
    }
    var pos := 8;
    ghost var blocks := Blocks(raw, pos);
    while true
      invariant blocks == Blocks(raw, pos) && FindIn(blocks) == DataStart(raw)
      decreases |raw| - pos
    {
      var block := ReadNext(raw, pos, blocks);
      if block.None? {
        break;
      }
      if block.value.headType == 2 {
        return Some(block.value.bodyEnd);
      }
      if block.value.headType == 5 {
        break;
      }
      pos := Next(block.value);
      blocks := blocks[1..];
    }
    return None;
  }

  lemma {:induction false} FindStable(blocks: seq<Block>, more: seq<Block>)
    requires blocks <= more && FindIn(blocks).Some?
    ensures FindIn(more) == FindIn(blocks)
    ensures exists k :: 0 <= k < |blocks| && FindIn(blocks) == Some(blocks[k].bodyEnd)
  {
    if blocks[0].headType != 2 {
      FindStable(blocks[1..], more[1..]);
      var k :| 0 <= k < |blocks[1..]| && FindIn(blocks[1..]) == Some(blocks[1..][k].bodyEnd);
      assert blocks[1..][k] == blocks[k + 1];
    }
  }

  /** A data start found in a prefix of a volume lies inside that prefix, past the signature, and is the
      data start of every longer prefix. */
  lemma DataStartStable(raw: seq<byte>, more: seq<byte>)
    requires raw <= more && DataStart(raw).Some?
    ensures 8 < DataStart(raw).value <= |raw| && DataStart(more) == DataStart(raw)
  {
    BlocksGrow(raw, more, 8);
    FindStable(Blocks(raw, 8), Blocks(more, 8));
    var k :| 0 <= k < |Blocks(raw, 8)| && FindIn(Blocks(raw, 8)) == Some(Blocks(raw, 8)[k].bodyEnd);
    BlocksInside(raw, 8, k);
    assert more[..8] == raw[..8];
  }

  // ----- Volumes written to the format ------------------------------------------------------------------------

  /** A block as the format describes it. The two low flag bits say whether the extra area and the data
      area are present; `highFlags` are the other flags. */
  datatype BlockSpec = BlockSpec(checksum: seq<byte>, headType: nat, highFlags: nat, extra: Option<seq<byte>>,
                                 data: Option<seq<byte>>, fields: seq<byte>)

  function FlagsOf(b: BlockSpec): nat {
    4 * b.highFlags + (if b.extra.Some? then 1 else 0) + (if b.data.Some? then 2 else 0)
  }

  function Content(part: Option<seq<byte>>): seq<byte> { if part.Some? then part.value else [] }

  function EncodedSize(part: Option<seq<byte>>): seq<byte> { if part.Some? then Encoded(|part.value|) else [] }

  /** The general fields of the header. */
  function EncodedGeneral(b: BlockSpec): seq<byte> {
    Encoded(b.headType) + (Encoded(FlagsOf(b)) + (EncodedSize(b.extra) + EncodedSize(b.data)))
  }

  /** The part of the header that the header size counts. */
  function EncodedBody(b: BlockSpec): seq<byte> {
    EncodedGeneral(b) + (b.fields + Content(b.extra))
  }

  function EncodedHeader(b: BlockSpec): seq<byte> {
    b.checksum + (Encoded(|EncodedBody(b)|) + EncodedBody(b))
  }

  function EncodedBlock(b: BlockSpec): seq<byte> { EncodedHeader(b) + Content(b.data) }

  function EncodedBlocks(blocks: seq<BlockSpec>): seq<byte> {
    if blocks == [] then [] else EncodedBlock(blocks[0]) + EncodedBlocks(blocks[1..])
  }

  /** The block can be written: a 4-byte checksum and sizes that fit the integer format. */
  predicate Writable(b: BlockSpec) {
    && |b.checksum| == 4 && b.headType < VINT_LIMIT && FlagsOf(b) < VINT_LIMIT
    && |Content(b.extra)| < VINT_LIMIT && |Content(b.data)| < VINT_LIMIT && |EncodedBody(b)| < VINT_LIMIT
  }

  /** What the walks should read for a block written at `pos`. */
  function Expected(b: BlockSpec, pos: nat): Block {
    var bodyEnd := pos + |EncodedHeader(b)|;
    Block(b.headType, bodyEnd - |EncodedBody(b)| + |EncodedGeneral(b)|, bodyEnd, |Content(b.extra)|, |Content(b.data)|)
  }

  lemma SizeReads(raw: seq<byte>, pos: nat, part: Option<seq<byte>>)
    requires PartAt(raw, pos, EncodedSize(part)) && |Content(part)| < VINT_LIMIT
    ensures SizeAt(raw, pos, part.Some?) == Some(SizeField(|Content(part)|, pos + |EncodedSize(part)|))
  {
    if part.Some? {
      VintRoundTrip(raw, pos, |part.value|);
    }
  }

  lemma GeneralReads(raw: seq<byte>, pos: nat, b: BlockSpec)
    requires Writable(b) && PartAt(raw, pos, EncodedGeneral(b))
    ensures GeneralAt(raw, pos) == Some(General(b.headType, |Content(b.extra)|, |Content(b.data)|,
                                                pos + |EncodedGeneral(b)|))
  {
    hide PartAt, VintAt, Encoded;
    var t, f, x, d := Encoded(b.headType), Encoded(FlagsOf(b)), EncodedSize(b.extra), EncodedSize(b.data);
    PartAtConcat(raw, pos, t, f + (x + d));
    PartAtConcat(raw, pos + |t|, f, x + d);
    PartAtConcat(raw, pos + |t| + |f|, x, d);
    VintRoundTrip(raw, pos, b.headType);
    VintRoundTrip(raw, pos + |t|, FlagsOf(b));
    assert HasExtra(FlagsOf(b)) == b.extra.Some? && HasData(FlagsOf(b)) == b.data.Some?;
    SizeReads(raw, pos + |t| + |f|, b.extra);
    SizeReads(raw, pos + |t| + |f| + |x|, b.data);
  }

  lemma HeaderParts(raw: seq<byte>, pos: nat, b: BlockSpec)
    requires |b.checksum| == 4 && PartAt(raw, pos, EncodedHeader(b))
    ensures PartAt(raw, pos + 4, Encoded(|EncodedBody(b)|))
    ensures PartAt(raw, pos + 4 + |Encoded(|EncodedBody(b)|)|, EncodedBody(b))
    ensures PartAt(raw, pos + 4 + |Encoded(|EncodedBody(b)|)|, EncodedGeneral(b))
    ensures |EncodedHeader(b)| == 4 + |Encoded(|EncodedBody(b)|)| + |EncodedBody(b)|
    ensures |EncodedGeneral(b)| <= |EncodedBody(b)| && |EncodedBody(b)| > 0
  {
    hide PartAt, Encoded, Content, EncodedSize, FlagsOf;
    var size, body := Encoded(|EncodedBody(b)|), EncodedBody(b);
    PartAtConcat(raw, pos, b.checksum, size + body);
    PartAtConcat(raw, pos + 4, size, body);
    PartAtConcat(raw, pos + 4 + |size|, EncodedGeneral(b), b.fields + Content(b.extra));
  }

  /** A written block is read back as it was meant. */
  lemma BlockReads(raw: seq<byte>, pos: nat, b: BlockSpec)
    requires Writable(b) && PartAt(raw, pos, EncodedHeader(b))
    ensures BlockAt(raw, pos) == Some(Expected(b, pos))
  {
    hide PartAt, VintAt, Encoded, EncodedGeneral, GeneralAt, Content, FlagsOf;
    var size, body := Encoded(|EncodedBody(b)|), EncodedBody(b);
    HeaderParts(raw, pos, b);
    VintRoundTrip(raw, pos + 4, |body|);
    PartAtFits(raw, pos + 4 + |size|, body);
    GeneralReads(raw, pos + 4 + |size|, b);
  }

  /** The blocks expected for `blocks` written from `pos` on. */
  function ExpectedBlocks(blocks: seq<BlockSpec>, pos: nat): seq<Block> {
    if blocks == [] then []
    else [Expected(blocks[0], pos)] + ExpectedBlocks(blocks[1..], pos + |EncodedBlock(blocks[0])|)
  }

  lemma FirstBlockReads(raw: seq<byte>, pos: nat, b: BlockSpec)
    requires Writable(b) && PartAt(raw, pos, EncodedBlock(b))
    ensures Blocks(raw, pos) == [Expected(b, pos)] + Blocks(raw, pos + |EncodedBlock(b)|)
  {
    hide PartAt, EncodedHeader, BlockAt, Writable, Content;
    PartAtConcat(raw, pos, EncodedHeader(b), Content(b.data));
    BlockReads(raw, pos, b);
  }

  lemma {:induction false} BlocksRead(raw: seq<byte>, pos: nat, blocks: seq<BlockSpec>)
    requires (forall b | b in blocks :: Writable(b)) && PartAt(raw, pos, EncodedBlocks(blocks))
    ensures ExpectedBlocks(blocks, pos) <= Blocks(raw, pos)
    decreases |blocks|
  {
    hide PartAt, EncodedBlock, Blocks, Writable, Expected;
    if blocks != [] {
      var b := blocks[0];
      assert b in blocks;
      PartAtConcat(raw, pos, EncodedBlock(b), EncodedBlocks(blocks[1..]));
      FirstBlockReads(raw, pos, b);
      BlocksRead(raw, pos + |EncodedBlock(b)|, blocks[1..]);
    }
  }

  /** Any volume that starts with the signature and writable blocks, whatever follows them, is read back
      block by block, each at the place it was written. */
  lemma VolumeReads(raw: seq<byte>, blocks: seq<BlockSpec>)
    requires forall b | b in blocks :: Writable(b)
    requires SIGNATURE + EncodedBlocks(blocks) <= raw
    ensures Signed(raw) && ExpectedBlocks(blocks, 8) <= Blocks(raw, 8)
  {
    hide PartAt, EncodedBlocks, ExpectedBlocks, Blocks, Writable;
    var written := SIGNATURE + EncodedBlocks(blocks);
    assert raw[..8] == written[..8] == SIGNATURE;
    PrefixIsPart(raw, written);
    PartAtConcat(raw, 0, SIGNATURE, EncodedBlocks(blocks));
    BlocksRead(raw, 8, blocks);
  }

  /** For such a volume the data start is where the first file block's data was written, if that block
      comes before any end-of-archive block, and that data is what stands there. */
  lemma WrittenDataStart(raw: seq<byte>, blocks: seq<BlockSpec>, k: nat)
    requires (forall b | b in blocks :: Writable(b)) && SIGNATURE + EncodedBlocks(blocks) <= raw
    requires k < |blocks| && blocks[k].headType == 2
    requires forall i | 0 <= i < k :: blocks[i].headType != 2 && blocks[i].headType != 5
    ensures DataStart(raw) == Some(8 + |EncodedBlocks(blocks[..k])| + |EncodedHeader(blocks[k])|)
    ensures PartAt(raw, DataStart(raw).value, Content(blocks[k].data))
  {
    hide PartAt, EncodedHeader, EncodedBlocks, ExpectedBlocks, Blocks, FindIn, Writable, Content;
    VolumeReads(raw, blocks);
    FindExpected(blocks, 8, k);
    FindStable(ExpectedBlocks(blocks, 8), Blocks(raw, 8));
    var before, b, behind := EncodedBlocks(blocks[..k]), blocks[k], EncodedBlocks(blocks[k + 1..]);
    EncodedSplit(blocks, k);
    PrefixIsPart(raw, SIGNATURE + EncodedBlocks(blocks));
    PartAtConcat(raw, 0, SIGNATURE, EncodedBlocks(blocks));
    PartAtConcat(raw, 8, before, EncodedBlock(b) + behind);
    PartAtConcat(raw, 8 + |before|, EncodedBlock(b), behind);
    PartAtConcat(raw, 8 + |before|, EncodedHeader(b), Content(b.data));
  }

  lemma {:induction false} FindExpected(blocks: seq<BlockSpec>, pos: nat, k: nat)
    requires k < |blocks| && blocks[k].headType == 2
    requires forall i | 0 <= i < k :: blocks[i].headType != 2 && blocks[i].headType != 5
    ensures FindIn(ExpectedBlocks(blocks, pos)) == Some(pos + |EncodedBlocks(blocks[..k])| + |EncodedHeader(blocks[k])|)
  {
    hide EncodedBlock, EncodedHeader, EncodedBody, EncodedGeneral;
    var expected := ExpectedBlocks(blocks, pos);
    assert expected[0].headType == blocks[0].headType;
    if k > 0 {
      FindExpected(blocks[1..], pos + |EncodedBlock(blocks[0])|, k - 1);
      assert blocks[..k][0] == blocks[0] && blocks[..k][1..] == blocks[1..][..k - 1];
      assert expected[1..] == ExpectedBlocks(blocks[1..], pos + |EncodedBlock(blocks[0])|);
    }
  }

  lemma {:induction false} EncodedSplit(blocks: seq<BlockSpec>, k: nat)
    requires k < |blocks|
    ensures EncodedBlocks(blocks) == EncodedBlocks(blocks[..k])
        + (EncodedBlock(blocks[k]) + EncodedBlocks(blocks[k + 1..]))
  {
    hide EncodedBlock;
    if k > 0 {
      EncodedSplit(blocks[1..], k - 1);
      assert blocks[..k][1..] == blocks[1..][..k - 1];
      assert blocks[1..][k..] == blocks[k + 1..];
    }
  }
}
