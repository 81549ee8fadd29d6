/** The parser of one RAR5 file header (`parseRAR5FileHeader`), without a password: the fields, and the walk
    over the extra area that looks for an encryption record. The byte layout is that of the RAR 5.0 archive
    format technical note, sections "File header" and "Extra area format". */
module Rar5Files {
  import opened Bytes
  import opened Rar5

  /** A file header as handed to the parser: its fields, the end of the fields (the extra area starts there)
      and the header's end. */
  datatype FileHeader = FileHeader(fieldsPos: nat, fieldsEnd: int, bodyEnd: nat, dataStart: nat, dataSize: nat)

  // ----- The fields ------------------------------------------------------------------------------------------

  /** An integer whose bytes all lie before `end`, and the position behind it. */
  datatype Field = Field(value: nat, next: nat)

  function FieldAt(raw: seq<byte>, pos: nat, end: int): Option<Field> {
    var v := VintAt(raw, pos);
    if v.size == 0 || pos + v.size > end || v.value < 0 then None else Some(Field(v.value, pos + v.size))
  }

  /** An integer that is there only when asked for. */
  function OptionalAt(raw: seq<byte>, pos: nat, end: int, present: bool): Option<Field> {
    if present then FieldAt(raw, pos, end) else Some(Field(0, pos))
  }

  /** `count` bytes that are skipped when they are there. */
  function Skipped(pos: nat, end: int, present: bool): Option<nat> {
    if !present then Some(pos) else if pos + 4 > end then None else Some(pos + 4)
  }

  /** What the fields say of the file. */
  datatype Fields = Fields(directory: bool, unpackedSize: nat, solid: bool, compression: nat, name: seq<byte>)

  /** Flags, size and attributes. */
  datatype Opening = Opening(flags: nat, unpackedSize: nat, next: nat)

  function OpeningAt(raw: seq<byte>, pos: nat, end: int): Option<Opening> {
    var flags := FieldAt(raw, pos, end);
    if flags.None? then None
    else
      var size := OptionalAt(raw, flags.value.next, end, flags.value.value / 8 % 2 == 0);
      if size.None? then None
      else
        var attributes := FieldAt(raw, size.value.next, end);
        if attributes.None? then None
        else Some(Opening(flags.value.value, size.value.value, attributes.value.next))
  }

  /** Compression information, host system and name. */
  datatype Closing = Closing(compression: nat, name: seq<byte>)

  function ClosingAt(raw: seq<byte>, pos: nat, end: int): Option<Closing>
    requires end <= |raw|
  {
    var compression := FieldAt(raw, pos, end);
    if compression.None? then None
    else
      var host := FieldAt(raw, compression.value.next, end);
      if host.None? then None
      else
        var length := FieldAt(raw, host.value.next, end);
        if length.None? || length.value.next + length.value.value > end then None
        else Some(Closing(compression.value.value, raw[length.value.next..length.value.next + length.value.value]))
  }

  /** The fields between `pos` and `end`, unless one of them is cut off. */
  function FieldsAt(raw: seq<byte>, pos: nat, end: int): Option<Fields>
    requires end <= |raw|
  {
    var opening := OpeningAt(raw, pos, end);
    if opening.None? then None
    else
      var flags := opening.value.flags;
      var time := Skipped(opening.value.next, end, flags / 2 % 2 == 1);
      if time.None? then None
      else
        var checksum := Skipped(time.value, end, flags / 4 % 2 == 1);
        if checksum.None? then None
        else
          var closing := ClosingAt(raw, checksum.value, end);
          if closing.None? then None
          else Some(Fields(flags % 2 == 1, opening.value.unpackedSize, closing.value.compression / 64 % 2 == 1,
                           closing.value.compression / 128 % 8, closing.value.name))
  }

  /** An integer whose bytes all lie inside the data reads the same there as in any extension. */
  lemma {:induction false} VintInside(data: seq<byte>, more: seq<byte>, pos: nat, i: nat)
    requires data <= more && VintFrom(more, pos, i).size > 0 && pos + VintFrom(more, pos, i).size <= |data|
    ensures VintFrom(data, pos, i) == VintFrom(more, pos, i)
    decreases MAX_VINT_BYTES - i
  {
    VintBounds(more, pos, i);
    if more[pos + i] as int >= 0x80 {
      VintInside(data, more, pos, i + 1);
    }
  }

  lemma FieldStable(raw: seq<byte>, more: seq<byte>, pos: nat, end: int)
    requires raw <= more && end <= |raw|
    ensures FieldAt(more, pos, end) == FieldAt(raw, pos, end)
  {
    hide VintFrom;
    if VintAt(raw, pos).size > 0 {
      VintAtStable(raw, more, pos);
    } else if VintAt(more, pos).size > 0 && pos + VintAt(more, pos).size <= |raw| {
      VintInside(raw, more, pos, 0);
    }
  }

  /** The fields read the same on every extension of the data: none of them is read past the header. */
  lemma FieldsStable(raw: seq<byte>, more: seq<byte>, pos: nat, end: int)
    requires raw <= more && end <= |raw|
    ensures FieldsAt(more, pos, end) == FieldsAt(raw, pos, end)
  {
    hide FieldAt;
    OpeningStable(raw, more, pos, end);
    var opening := OpeningAt(raw, pos, end);
    if opening.Some? {
      var time := Skipped(opening.value.next, end, opening.value.flags / 2 % 2 == 1);
      if time.Some? {
        var checksum := Skipped(time.value, end, opening.value.flags / 4 % 2 == 1);
        if checksum.Some? {
          ClosingStable(raw, more, checksum.value, end);
        }
      }
    }
  }

  lemma OpeningStable(raw: seq<byte>, more: seq<byte>, pos: nat, end: int)
    requires raw <= more && end <= |raw|
    ensures OpeningAt(more, pos, end) == OpeningAt(raw, pos, end)
  {
    hide FieldAt;
    FieldStable(raw, more, pos, end);
    var flags := FieldAt(raw, pos, end);
    if flags.Some? {
      FieldStable(raw, more, flags.value.next, end);
      var size := OptionalAt(raw, flags.value.next, end, flags.value.value / 8 % 2 == 0);
      if size.Some? {
        FieldStable(raw, more, size.value.next, end);
      }
    }
  }

  lemma ClosingStable(raw: seq<byte>, more: seq<byte>, pos: nat, end: int)
    requires raw <= more && end <= |raw|
    ensures ClosingAt(more, pos, end) == ClosingAt(raw, pos, end)
  {
    hide FieldAt;
    FieldStable(raw, more, pos, end);
    var compression := FieldAt(raw, pos, end);
    if compression.Some? {
      FieldStable(raw, more, compression.value.next, end);
      var host := FieldAt(raw, compression.value.next, end);
      if host.Some? {
        FieldStable(raw, more, host.value.next, end);
        var length := FieldAt(raw, host.value.next, end);
        if length.Some? && length.value.next + length.value.value <= end {
          SameSlice(raw, more, length.value.next, length.value.next + length.value.value);
        }
      }
    }
  }

  lemma SameSlice(raw: seq<byte>, more: seq<byte>, from: nat, to: nat)
    requires raw <= more && from <= to <= |raw|
    ensures more[from..to] == raw[from..to]
  {
  }

  // ----- The extra area -----------------------------------------------------------------------------------------

  /** What the walk over the extra area finds: no encryption record, one, or the end of the data in the middle
      of the record type that starts at `at`. */
  datatype Scan = Plain | Encrypted | Cut(at: nat)

  /** The records from `pos` on. The size of a record must end before the header does; its type need not. */
  function ScanFrom(raw: seq<byte>, pos: nat, bodyEnd: nat): Scan
    decreases bodyEnd - pos
  {
    if pos >= bodyEnd then Plain
    else
      var size := VintAt(raw, pos);
      if size.size == 0 || pos + size.size > bodyEnd || size.value < 0 then Plain
      else
        var at := pos + size.size;
        var kind := VintAt(raw, at);
        if kind.size == 0 then if at + MAX_VINT_BYTES > |raw| then Cut(at) else Plain
        else if kind.value == 1 then Encrypted
        else ScanFrom(raw, at + size.value, bodyEnd)
  }

  /** The type that starts at `at` and is cut off by the end of the data is 1 if the right bytes follow. */
  predicate CanBecomeOne(raw: seq<byte>, at: nat) {
    at >= |raw| || (raw[at] == 0x81 && forall i | at < i < |raw| :: raw[i] == 0x80)
  }

  /** A cut integer consists of continued digits up to the end of the data. */
  lemma {:induction false} CutDigits(raw: seq<byte>, at: nat, i: nat)
    requires at + MAX_VINT_BYTES > |raw| && VintFrom(raw, at, i).size == 0
    ensures forall j | at + i <= j < |raw| :: raw[j] as int >= 0x80
    decreases MAX_VINT_BYTES - i
  {
    if i < MAX_VINT_BYTES && at + i < |raw| {
      CutDigits(raw, at, i + 1);
    }
  }

  /** From a position inside the continued digits at the end of the data no integer ends before them. */
  lemma {:induction false} DigitsRunOn(raw: seq<byte>, more: seq<byte>, pos: nat, i: nat)
    requires raw <= more && forall j | pos + i <= j < |raw| :: raw[j] as int >= 0x80
    ensures VintFrom(more, pos, i).size > 0 ==> pos + VintFrom(more, pos, i).size > |raw|
    decreases MAX_VINT_BYTES - i
  {
    if i < MAX_VINT_BYTES && pos + i < |more| {
      DigitsRunOn(raw, more, pos, i + 1);
    }
  }

  lemma {:induction false} FullVintStable(raw: seq<byte>, more: seq<byte>, at: nat, i: nat)
    requires raw <= more && at + MAX_VINT_BYTES <= |raw|
    ensures VintFrom(more, at, i) == VintFrom(raw, at, i)
    decreases MAX_VINT_BYTES - i
  {
    if i < MAX_VINT_BYTES {
      FullVintStable(raw, more, at, i + 1);
    }
  }

  /** More data decides nothing new about the extra area, unless the walk was cut in the middle of a record
      type: then there is an encryption record exactly if that type turns out to be 1. */
  lemma {:induction false} ScanGrows(raw: seq<byte>, more: seq<byte>, pos: nat, bodyEnd: nat)
    requires raw <= more && bodyEnd <= |raw|
    ensures match ScanFrom(raw, pos, bodyEnd)
            case Plain => ScanFrom(more, pos, bodyEnd) == Plain
            case Encrypted => ScanFrom(more, pos, bodyEnd) == Encrypted
            case Cut(at) =>
              at <= |raw| &&
              (ScanFrom(more, pos, bodyEnd) == Encrypted <==> VintAt(more, at).size > 0 && VintAt(more, at).value == 1)
    decreases bodyEnd - pos
  {
    hide VintAt;
    if pos < bodyEnd {
      FieldStable(raw, more, pos, bodyEnd);
      var size := VintAt(raw, pos);
      if FieldAt(raw, pos, bodyEnd).Some? {
        var at := pos + size.size;
        TypeGrows(raw, more, at);
        if VintAt(raw, at).size == 0 {
          if at + MAX_VINT_BYTES > |raw| {
            BehindCut(raw, more, at, at + size.value, bodyEnd);
          }
        } else if VintAt(raw, at).value != 1 {
          ScanGrows(raw, more, at + size.value, bodyEnd);
        }
      }
    }
  }

  lemma TypeGrows(raw: seq<byte>, more: seq<byte>, at: nat)
    requires raw <= more
    ensures VintAt(raw, at).size > 0 || at + MAX_VINT_BYTES <= |raw| ==> VintAt(more, at) == VintAt(raw, at)
  {
    if VintAt(raw, at).size > 0 {
      VintAtStable(raw, more, at);
    } else if at + MAX_VINT_BYTES <= |raw| {
      FullVintStable(raw, more, at, 0);
    }
  }

  /** Behind a cut record type there are no further records. */
  lemma BehindCut(raw: seq<byte>, more: seq<byte>, at: nat, next: nat, bodyEnd: nat)
    requires raw <= more && bodyEnd <= |raw| && at <= next
    requires at + MAX_VINT_BYTES > |raw| && VintAt(raw, at).size == 0
    ensures ScanFrom(more, next, bodyEnd) == Plain
  {
    CutDigits(raw, at, 0);
    DigitsRunOn(raw, more, next, 0);
  }

  lemma {:induction false} ZeroDigits(raw: seq<byte>, more: seq<byte>, at: nat, i: nat)
    requires raw <= more && VintFrom(more, at, i).size > 0 && VintFrom(more, at, i).value == 0
    requires forall j | at + i <= j < |raw| :: raw[j] as int >= 0x80
    ensures forall j | at + i <= j < |raw| :: raw[j] == 0x80
    decreases MAX_VINT_BYTES - i
  {
    if at + i < |raw| {
      VintBounds(more, at, i + 1);
      ZeroDigits(raw, more, at, i + 1);
    }
  }

  /** Which cut types can still become 1: exactly those with no digit yet, or with a 1 and zeros so far. */
  lemma CanBecomeOneExactly(raw: seq<byte>, at: nat)
    requires at <= |raw| && at + MAX_VINT_BYTES > |raw| && VintAt(raw, at).size == 0
    ensures CanBecomeOne(raw, at) <==>
      exists more :: raw <= more && VintAt(more, at).size > 0 && VintAt(more, at).value == 1
  {
    CutDigits(raw, at, 0);
    if CanBecomeOne(raw, at) {
      var more := raw + [if at == |raw| then 1 else 0];
      OneCompletes(raw, more, at);
      assert raw <= more;
    }
    if more :| raw <= more && VintAt(more, at).size > 0 && VintAt(more, at).value == 1 {
      if at < |raw| {
        VintBounds(more, at, 1);
        ZeroDigits(raw, more, at, 1);
      }
    }
  }

  lemma OneCompletes(raw: seq<byte>, more: seq<byte>, at: nat)
    requires at <= |raw| < at + MAX_VINT_BYTES && CanBecomeOne(raw, at)
    requires more == raw + [if at == |raw| then 1 else 0]
    ensures VintAt(more, at).size > 0 && VintAt(more, at).value == 1
  {
    if at < |raw| {
      ZerosComplete(raw, more, at, 1);
    }
  }

  lemma {:induction false} ZerosComplete(raw: seq<byte>, more: seq<byte>, at: nat, i: nat)
    requires more == raw + [0] && at + i <= |raw| < at + MAX_VINT_BYTES && i > 0
    requires forall j | at + i <= j < |raw| :: raw[j] == 0x80
    ensures VintFrom(more, at, i).size > 0 && VintFrom(more, at, i).value == 0
    decreases MAX_VINT_BYTES - i
  {
    if at + i < |raw| {
      ZerosComplete(raw, more, at, i + 1);
    }
  }

  // ----- The parser ---------------------------------------------------------------------------------------------

  /** A header that cannot be used, a directory, or a file: what it is called and how it is packed, its unpacked
      size, and the place and length of its data. */
  datatype Parsed =
    | Unusable
    | Directory
    | File(name: seq<byte>, playable: bool, solid: bool, stored: bool, encrypted: bool,
           size: nat, place: nat, packed: nat)

  /** A header lies inside the data. */
  predicate Inside(raw: seq<byte>, h: FileHeader) { h.fieldsEnd <= h.bodyEnd <= |raw| }

  function ExtraStart(h: FileHeader): nat { if h.fieldsEnd < 0 then 0 else h.fieldsEnd }

  /** What the header says of its file; `video` says which names are those of videos. */
  function ParsedAt(raw: seq<byte>, h: FileHeader, video: seq<byte> -> bool): Parsed
    requires Inside(raw, h)
  {
    var fields := FieldsAt(raw, h.fieldsPos, h.fieldsEnd);
    if fields.None? then Unusable
    else if fields.value.directory then Directory
    else File(fields.value.name, video(fields.value.name), fields.value.solid, fields.value.compression == 0,
              ScanFrom(raw, ExtraStart(h), h.bodyEnd).Encrypted?, fields.value.unpackedSize, h.dataStart, h.dataSize)
  }

  method ReadField(raw: seq<byte>, pos: nat, end: int) returns (field: Option<Field>)
    ensures field == FieldAt(raw, pos, end)
  {
    VintAtBounds(raw, pos);
    var v := ReadVint(raw, pos);
    if v.size == 0 || pos + v.size > end {
      return None;
    }
    return Some(Field(v.value, pos + v.size));
  }

  method ReadFields(raw: seq<byte>, start: nat, end: int) returns (fields: Option<Fields>)
    requires end <= |raw|
    ensures fields == FieldsAt(raw, start, end)
  {
    hide FieldAt;
    var pos := start;
    var fileFlags := ReadField(raw, pos, end);
    if fileFlags.None? {
      return None;
    }
    pos := fileFlags.value.next;
    var unpackedSize := 0;
    if fileFlags.value.value / 8 % 2 == 0 {
      var size := ReadField(raw, pos, end);
      if size.None? {
        return None;
      }
      unpackedSize := size.value.value;
      pos := size.value.next;
    }
    var attributes := ReadField(raw, pos, end);
    if attributes.None? {
      return None;
    }
    pos := attributes.value.next;
    if fileFlags.value.value / 2 % 2 == 1 {
      if pos + 4 > end {
        return None;
      }
      pos := pos + 4;
    }
    if fileFlags.value.value / 4 % 2 == 1 {
      if pos + 4 > end {
        return None;
      }
      pos := pos + 4;
    }
    var closing := ReadClosing(raw, pos, end);
    if closing.None? {
      return None;
    }
    return Some(Fields(fileFlags.value.value % 2 == 1, unpackedSize, closing.value.compression / 64 % 2 == 1,
                       closing.value.compression / 128 % 8, closing.value.name));
  }

  method ReadClosing(raw: seq<byte>, pos: nat, end: int) returns (closing: Option<Closing>)
    requires end <= |raw|
    ensures closing == ClosingAt(raw, pos, end)
  {
    hide FieldAt;
    var compression := ReadField(raw, pos, end);
    if compression.None? {
      return None;
    }
    var host := ReadField(raw, compression.value.next, end);
    if host.None? {
      return None;
    }
    var length := ReadField(raw, host.value.next, end);
    if length.None? || length.value.next + length.value.value > end {
      return None;
    }
    return Some(Closing(compression.value.value, raw[length.value.next..length.value.next + length.value.value]));
  }

  /** The walk over the extra area: an encryption record once seen stays seen. */
  method ScanExtra(raw: seq<byte>, start: nat, bodyEnd: nat) returns (encrypted: bool)
    ensures encrypted == ScanFrom(raw, start, bodyEnd).Encrypted?
  {
    encrypted := false;
    var extraPos := start;
    while extraPos < bodyEnd
      invariant encrypted || ScanFrom(raw, extraPos, bodyEnd).Encrypted? <==> ScanFrom(raw, start, bodyEnd).Encrypted?
      decreases bodyEnd - extraPos
    {
      VintAtBounds(raw, extraPos);
      var size := ReadVint(raw, extraPos);
      if size.size == 0 || extraPos + size.size > bodyEnd {
        break;
      }
      var fieldStart := extraPos + size.size;
      var kind := ReadVint(raw, fieldStart);
      if kind.size == 0 {
        break;
      }
      if kind.value == 1 {
        encrypted := true;
      }
      extraPos := fieldStart + size.value;
    }
  }

  method ParseFileHeader(raw: seq<byte>, h: FileHeader, video: seq<byte> -> bool) returns (p: Parsed)
    requires Inside(raw, h)
    ensures p == ParsedAt(raw, h, video)
  {
    var fields := ReadFields(raw, h.fieldsPos, h.fieldsEnd);
    if fields.None? {
      return Unusable;
    }
    var encrypted := ScanExtra(raw, ExtraStart(h), h.bodyEnd);
    if fields.value.directory {
      return Directory;
    }
    return File(fields.value.name, video(fields.value.name), fields.value.solid,
                fields.value.compression == 0, encrypted, fields.value.unpackedSize, h.dataStart, h.dataSize);
  }

  /** The reading of a header that can still change when more data comes: a file whose extra area is cut in the
      middle of a record type that may become 1. */
  predicate Undecided(raw: seq<byte>, h: FileHeader) {
    var scan := ScanFrom(raw, ExtraStart(h), h.bodyEnd);
    scan.Cut? && CanBecomeOne(raw, scan.at)
  }

  /** On an extension a header reads the same, or it is a file that turns out to be encrypted. */
  lemma ParsedGrows(raw: seq<byte>, more: seq<byte>, h: FileHeader, video: seq<byte> -> bool)
    requires raw <= more && Inside(raw, h)
    ensures ParsedAt(more, h, video) == ParsedAt(raw, h, video) ||
      (ParsedAt(raw, h, video).File? && !ParsedAt(raw, h, video).encrypted && Undecided(raw, h)
       && ParsedAt(more, h, video) == ParsedAt(raw, h, video).(encrypted := true))
  {
    hide VintAt, FieldsAt, ScanFrom;
    FieldsStable(raw, more, h.fieldsPos, h.fieldsEnd);
    ScanGrows(raw, more, ExtraStart(h), h.bodyEnd);
    var scan := ScanFrom(raw, ExtraStart(h), h.bodyEnd);
    if scan.Cut? {
      CutIs(raw, ExtraStart(h), h.bodyEnd);
      CanBecomeOneExactly(raw, scan.at);
    }
  }

  /** An undecided header has an extension on which its file is encrypted. */
  lemma UndecidedTurns(raw: seq<byte>, h: FileHeader, video: seq<byte> -> bool) returns (more: seq<byte>)
    requires Inside(raw, h) && Undecided(raw, h) && ParsedAt(raw, h, video).File?
    ensures raw <= more && ParsedAt(more, h, video) == ParsedAt(raw, h, video).(encrypted := true)
  {
    hide VintAt, FieldsAt, ScanFrom;
    var scan := ScanFrom(raw, ExtraStart(h), h.bodyEnd);
    CutIs(raw, ExtraStart(h), h.bodyEnd);
    ScanGrows(raw, raw, ExtraStart(h), h.bodyEnd);
    CanBecomeOneExactly(raw, scan.at);
    more :| raw <= more && VintAt(more, scan.at).size > 0 && VintAt(more, scan.at).value == 1;
    FieldsStable(raw, more, h.fieldsPos, h.fieldsEnd);
    ScanGrows(raw, more, ExtraStart(h), h.bodyEnd);
  }

  lemma {:induction false} CutIs(raw: seq<byte>, pos: nat, bodyEnd: nat)
    requires ScanFrom(raw, pos, bodyEnd).Cut? && bodyEnd <= |raw|
    ensures var at := ScanFrom(raw, pos, bodyEnd).at;
      at <= |raw| && at + MAX_VINT_BYTES > |raw| && VintAt(raw, at).size == 0 && pos < at <= bodyEnd
    decreases bodyEnd - pos
  {
    hide VintAt;
    var size := VintAt(raw, pos);
    var at := pos + size.size;
    if VintAt(raw, at).size > 0 {
      CutIs(raw, at + size.value, bodyEnd);
    }
  }
}
