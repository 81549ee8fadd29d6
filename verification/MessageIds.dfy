/** The packed form of a file's message IDs: a count and length-prefixed strings, compressed behind a
    magic prefix (`packMessageIDs`, `unpackMessageIDs`). The compressor is a parameter; the integers are
    those of Go's encoding/binary `Uvarint` and `AppendUvarint`. */
module MessageIds {
  import opened Base128
  import opened Bytes

  datatype Result<+T> = Ok(value: T) | Err(error: DecodeError)

  datatype DecodeError =
    InvalidFormat | Decompress | MissingCount | Panic | TruncatedLength | TruncatedValue | TrailingData

  /** A message ID is a Go string: bytes, with a length that is an int. */
  type MessageId = s: seq<byte> | |s| < 0x8000_0000_0000_0000

  const MAX_VARINT_BYTES := 10
  const MAGIC: seq<byte> := [0x44, 0x4d, 0x53, 0x47, 0x5a, 0x31, 0x00]

  // ----- Unsigned varints ------------------------------------------------------------------------------

  /** `n` bytes were read; 0 when the bytes ran out, negative when the value does not fit 64 bits. */
  datatype Uvarint = Uvarint(value: int, n: int)

  /** The integer whose digit `i` is at index `i` of `buf`. */
  function UvarintFrom(buf: seq<byte>, i: nat): Uvarint
    decreases |buf| - i
  {
    if i >= |buf| then Uvarint(0, 0)
    else if i == MAX_VARINT_BYTES then Uvarint(0, -(i + 1))
    else
      var b := buf[i] as int;
      if b < 0x80 then
        if i == MAX_VARINT_BYTES - 1 && b > 1 then Uvarint(0, -(i + 1)) else Uvarint(b, i + 1)
      else
        var rest := UvarintFrom(buf, i + 1);
        if rest.n <= 0 then Uvarint(0, rest.n) else Uvarint(b - 0x80 + 0x80 * rest.value, rest.n)
  }

  function Shifted(low: int, i: nat, rest: Uvarint): Uvarint {
    if rest.n <= 0 then Uvarint(0, rest.n) else Uvarint(low + Pow128(i) * rest.value, rest.n)
  }

  lemma ShiftedStep(buf: seq<byte>, i: nat, low: int)
    requires i < |buf| && i < MAX_VARINT_BYTES
    ensures var b, rest := buf[i] as int, UvarintFrom(buf, i + 1);
      Shifted(low, i, UvarintFrom(buf, i))
      == if b < 0x80 then
           if i == MAX_VARINT_BYTES - 1 && b > 1 then Uvarint(0, -(i + 1)) else Uvarint(low + b * Pow128(i), i + 1)
         else Shifted(low + (b % 0x80) * Pow128(i), i + 1, rest)
  {
    var b, rest := buf[i] as int, UvarintFrom(buf, i + 1);
    if b < 0x80 {
      assert Pow128(i) * b == b * Pow128(i);
    } else {
      assert b - 0x80 == b % 0x80;
      Distribute(Pow128(i), b % 0x80, rest.value);
    }
  }

  method ReadUvarint(buf: seq<byte>) returns (r: Uvarint)
    ensures r == UvarintFrom(buf, 0)
  {
    var x, shift := 0, 1;
    var i := 0;
    assert Shifted(0, 0, UvarintFrom(buf, 0)) == UvarintFrom(buf, 0);
    while i < |buf|
      invariant i <= |buf| && i <= MAX_VARINT_BYTES && shift == Pow128(i)
      invariant Shifted(x, i, UvarintFrom(buf, i)) == UvarintFrom(buf, 0)
    {
      if i == MAX_VARINT_BYTES {
        return Uvarint(0, -(i + 1));
      }
      var b := buf[i] as int;
      ShiftedStep(buf, i, x);
      if b < 0x80 {
        if i == MAX_VARINT_BYTES - 1 && b > 1 {
          return Uvarint(0, -(i + 1));
        }
        return Uvarint(x + b * shift, i + 1);
      }
      x := x + (b % 0x80) * shift;
      shift := 0x80 * shift;
      i := i + 1;
    }
    return Uvarint(0, 0);
  }

  method AppendUvarint(buf: seq<byte>, value: nat) returns (r: seq<byte>)
    ensures r == buf + Encoded(value)
  {
    r := buf;
    var x := value;
    while x >= 0x80
      invariant r + Encoded(x) == buf + Encoded(value)
    {
      r := r + [(0x80 + x % 0x80) as byte];
      x := x / 0x80;
    }
    r := r + [x as byte];
  }

  lemma {:induction false} UvarintReadsFrom(buf: seq<byte>, i: nat, v: nat)
    requires i < MAX_VARINT_BYTES && v < 2 * Pow128(MAX_VARINT_BYTES - 1 - i) && PartAt(buf, i, Encoded(v))
    ensures UvarintFrom(buf, i) == Uvarint(v, i + |Encoded(v)|)
    decreases v
  {
    assert Encoded(v)[0] == buf[i + 0];
    if v >= 0x80 {
      PartAtConcat(buf, i, [(0x80 + v % 0x80) as byte], Encoded(v / 0x80));
      UvarintReadsFrom(buf, i + 1, v / 0x80);
    }
  }

  /** Reading inverts writing for every 64-bit value, whatever follows. */
  lemma UvarintRoundTrip(v: nat, rest: seq<byte>)
    requires v < 0x1_0000_0000_0000_0000
    ensures UvarintFrom(Encoded(v) + rest, 0) == Uvarint(v, |Encoded(v)|)
  {
    assert 2 * Pow128(9) == 0x1_0000_0000_0000_0000;
    PartAtLeft(Encoded(v), rest);
    UvarintReadsFrom(Encoded(v) + rest, 0, v);
  }

  lemma {:induction false} UvarintCutFrom(buf: seq<byte>, i: nat, v: nat)
    requires i < MAX_VARINT_BYTES && v < 2 * Pow128(MAX_VARINT_BYTES - 1 - i)
    requires i <= |buf| < i + |Encoded(v)| && buf[i..] == Encoded(v)[..|buf| - i]
    ensures UvarintFrom(buf, i).n == 0
    decreases v
  {
    if i < |buf| {
      assert buf[i] == buf[i..][0] == Encoded(v)[0];
      assert buf[i + 1..] == buf[i..][1..] == Encoded(v / 0x80)[..|buf| - i - 1];
      UvarintCutFrom(buf, i + 1, v / 0x80);
    }
  }

  /** A written integer that is cut short is reported as cut short. */
  lemma UvarintCut(buf: seq<byte>, v: nat)
    requires v < 0x1_0000_0000_0000_0000 && buf <= Encoded(v) && |buf| < |Encoded(v)|
    ensures UvarintFrom(buf, 0).n == 0
  {
    assert 2 * Pow128(9) == 0x1_0000_0000_0000_0000;
    UvarintCutFrom(buf, 0, v);
  }

  // ----- The body ------------------------------------------------------------------------------------------

  function Items(ids: seq<MessageId>): seq<byte> {
    if ids == [] then [] else (Encoded(|ids[0]|) + ids[0]) + Items(ids[1..])
  }

  function Body(ids: seq<MessageId>): seq<byte> { Encoded(|ids|) + Items(ids) }

  /** Pack the IDs: nothing for an empty list. */
  method PackMessageIds(ids: seq<MessageId>, compress: seq<byte> -> seq<byte>) returns (packed: seq<byte>)
    ensures packed == Packed(ids, compress)
  {
    if |ids| == 0 {
      return [];
    }
    var raw := AppendUvarint([], |ids|);
    for i := 0 to |ids|
      invariant raw + Items(ids[i..]) == Body(ids)
    {
      ItemsStep(ids, i);
      ghost var before, rest := raw, Items(ids[i + 1..]);
      raw := AppendUvarint(raw, |ids[i]|);
      raw := raw + ids[i];
      assert raw + rest == before + ((Encoded(|ids[i]|) + ids[i]) + rest);
    }
    assert raw + [] == raw;
    packed := MAGIC + compress(raw);
  }

  lemma ItemsStep(ids: seq<MessageId>, i: nat)
    requires i < |ids|
    ensures Items(ids[i..]) == (Encoded(|ids[i]|) + ids[i]) + Items(ids[i + 1..])
  {
    assert ids[i..][0] == ids[i] && ids[i..][1..] == ids[i + 1..];
  }

  function Packed(ids: seq<MessageId>, compress: seq<byte> -> seq<byte>): seq<byte> {
    if ids == [] then [] else MAGIC + compress(Body(ids))
  }

  /** The next string of a body and what is left behind it. */
  function NextItem(body: seq<byte>): Result<(seq<byte>, seq<byte>)> {
    var size := UvarintFrom(body, 0);
    if size.n <= 0 || size.n > |body| then Err(TruncatedLength)
    else if size.value < 0 || size.value > |body| - size.n then Err(TruncatedValue)
    else Ok((body[size.n..size.n + size.value], body[size.n + size.value..]))
  }

  /** `count` strings, after which nothing may be left. */
  function ItemsOf(body: seq<byte>, count: nat): Result<seq<seq<byte>>> {
    if count == 0 then if body == [] then Ok([]) else Err(TrailingData)
    else
      var next := NextItem(body);
      if next.Err? then Err(next.error)
      else
        var rest := ItemsOf(next.value.1, count - 1);
        if rest.Err? then rest else Ok([next.value.0] + rest.value)
  }

  /** The strings of a body. `limit` is the largest number of strings the program can make room for: a larger
      count makes it panic before it looks at any string. */
  function IdsOf(body: seq<byte>, limit: nat): Result<seq<seq<byte>>> {
    var count := UvarintFrom(body, 0);
    if count.n <= 0 || count.n > |body| || count.value < 0 then Err(MissingCount)
    else if count.value > limit then Err(Panic)
    else ItemsOf(body[count.n..], count.value)
  }

  function Unpacked(packed: seq<byte>, legacy: seq<seq<byte>>, decompress: seq<byte> -> Result<seq<byte>>, limit: nat)
    : Result<seq<seq<byte>>>
  {
    if packed == [] then Ok(legacy)
    else if !(MAGIC <= packed) then Err(InvalidFormat)
    else
      var body := decompress(packed[|MAGIC|..]);
      if body.Err? then Err(Decompress) else IdsOf(body.value, limit)
  }

  predicate Continued(buf: seq<byte>, from: nat, to: nat) {
    to <= |buf| && forall j | from <= j < to :: buf[j] as int >= 0x80
  }

  /** Reading runs out of bytes exactly when ten bytes or fewer are left and all of them go on, and overflows
      exactly when the tenth byte stands for more than one bit, or goes on into an eleventh. */
  lemma {:induction false} UvarintFailsExactly(buf: seq<byte>, i: nat)
    requires i <= 9
    ensures UvarintFrom(buf, i).n == 0 <==> |buf| <= 10 && Continued(buf, i, |buf|)
    ensures UvarintFrom(buf, i).n < 0 <==>
      |buf| >= 10 && Continued(buf, i, 9) && buf[9] > 1 && (buf[9] as int >= 0x80 ==> |buf| > 10)
    decreases 9 - i
  {
    if i < |buf| && buf[i] as int >= 0x80 {
      if i < 9 {
        UvarintFailsExactly(buf, i + 1);
        assert forall to: nat | i < to <= |buf| :: Continued(buf, i, to) <==> Continued(buf, i + 1, to);
      } else {
        assert UvarintFrom(buf, 10).n == if |buf| > 10 then -11 else 0;
      }
    }
  }

  /** What was read lies inside the buffer and is not negative. */
  lemma {:induction false} UvarintBounds(buf: seq<byte>, i: nat)
    requires i <= |buf|
    ensures UvarintFrom(buf, i).value >= 0 && UvarintFrom(buf, i).n <= |buf|
    ensures UvarintFrom(buf, i).n > 0 ==> UvarintFrom(buf, i).n > i
    decreases |buf| - i
  {
    if i < |buf| {
      UvarintBounds(buf, i + 1);
    }
  }

  /** Unpack the IDs; rows without a packed form fall back to the parsed legacy column. */
  method UnpackMessageIds(packed: seq<byte>, legacy: seq<seq<byte>>, decompress: seq<byte> -> Result<seq<byte>>,
                          limit: nat)
    returns (result: Result<seq<seq<byte>>>)
    ensures result == Unpacked(packed, legacy, decompress, limit)
    ensures packed == [] ==> result == Ok(legacy)
    ensures packed != [] && !(MAGIC <= packed) ==> result == Err(InvalidFormat)
    ensures MAGIC <= packed && decompress(packed[|MAGIC|..]).Err? ==> result == Err(Decompress)
  {
    if |packed| == 0 {
      return Ok(legacy);
    }
    if !(MAGIC <= packed) {
      return Err(InvalidFormat);
    }
    var decompressed := decompress(packed[|MAGIC|..]);
    if decompressed.Err? {
      return Err(Decompress);
    }
    result := DecodeBody(decompressed.value, limit);
  }

  method DecodeBody(whole: seq<byte>, limit: nat) returns (result: Result<seq<seq<byte>>>)
    ensures result == IdsOf(whole, limit)
  {
    UvarintBounds(whole, 0);
    var count := ReadUvarint(whole);
    if count.n <= 0 {
      return Err(MissingCount);
    }
    if count.value > limit {
      return Err(Panic);
    }
    var body := whole[count.n..];
    var out: seq<seq<byte>> := [];
    var i := 0;
    BehindNothing(ItemsOf(body, count.value));
    while i < count.value
      invariant i <= count.value
      invariant Behind(out, ItemsOf(body, count.value - i)) == IdsOf(whole, limit)
      decreases count.value - i
    {
      ghost var before, at := out, body;
      UvarintBounds(body, 0);
      var size := ReadUvarint(body);
      if size.n <= 0 {
        return Err(TruncatedLength);
      }
      body := body[size.n..];
      if size.value > |body| {
        return Err(TruncatedValue);
      }
      var id := body[..size.value];
      body := body[size.value..];
      NextItemRead(at, size);
      BehindStep(out, id, ItemsOf(body, count.value - i - 1));
      out := out + [id];
      i := i + 1;
    }
    if |body| != 0 {
      return Err(TrailingData);
    }
    assert out + [] == out;
    result := Ok(out);
  }

  lemma NextItemRead(body: seq<byte>, size: Uvarint)
    requires size == UvarintFrom(body, 0) && 0 < size.n <= |body| && 0 <= size.value <= |body| - size.n
    ensures NextItem(body) == Ok((body[size.n..][..size.value], body[size.n..][size.value..]))
  {
    hide UvarintFrom;
    SuffixParts(body, size.n, size.value);
  }

  lemma SuffixParts<T>(s: seq<T>, from: int, length: int)
    requires 0 <= from && 0 <= length && from + length <= |s|
    ensures s[from..][..length] == s[from..from + length]
    ensures s[from..][length..] == s[from + length..]
  {
    assert s[from..] == s[from..|s|];
    SliceOfSlice(s, from, |s|, 0, length);
    SliceOfSlice(s, from, |s|, length, |s| - from);
  }

  function Behind(out: seq<seq<byte>>, rest: Result<seq<seq<byte>>>): Result<seq<seq<byte>>> {
    if rest.Err? then rest else Ok(out + rest.value)
  }

  lemma BehindNothing(rest: Result<seq<seq<byte>>>)
    ensures Behind([], rest) == rest
  {
    if rest.Ok? {
      assert [] + rest.value == rest.value;
    }
  }

  lemma BehindStep(out: seq<seq<byte>>, id: seq<byte>, rest: Result<seq<seq<byte>>>)
    ensures Behind(out, if rest.Err? then rest else Ok([id] + rest.value)) == Behind(out + [id], rest)
  {
    if rest.Ok? {
      assert out + ([id] + rest.value) == (out + [id]) + rest.value;
    }
  }

  // ----- Round trip ------------------------------------------------------------------------------------------

  lemma ThreeParts<T>(a: seq<T>, b: seq<T>, c: seq<T>)
    ensures (a + b) + c == a + (b + c)
    ensures ((a + b) + c)[|a|..|a| + |b|] == b && ((a + b) + c)[|a| + |b|..] == c
  {
  }

  lemma NextItemOf(id: MessageId, rest: seq<byte>)
    ensures NextItem((Encoded(|id|) + id) + rest) == Ok((id, rest))
  {
    hide Encoded, UvarintFrom;
    var e := Encoded(|id|);
    ThreeParts(e, id, rest);
    UvarintRoundTrip(|id|, id + rest);
  }

  lemma {:induction false} ItemsRoundTrip(ids: seq<MessageId>)
    ensures ItemsOf(Items(ids), |ids|) == Ok(ids)
  {
    if ids != [] {
      NextItemOf(ids[0], Items(ids[1..]));
      ItemsRoundTrip(ids[1..]);
      assert [ids[0]] + ids[1..] == ids;
    }
  }

  /** Unpacking what was packed gives the IDs back, for every non-empty list that fits in
      memory. */
  lemma PackRoundTrip(ids: seq<MessageId>, legacy: seq<seq<byte>>, compress: seq<byte> -> seq<byte>,
                      decompress: seq<byte> -> Result<seq<byte>>, limit: nat)
    requires ids != [] && |ids| <= limit < 0x8000_0000_0000_0000
    requires forall raw :: decompress(compress(raw)) == Ok(raw)
    ensures Unpacked(Packed(ids, compress), legacy, decompress, limit) == Ok(ids)
  {
    UvarintRoundTrip(|ids|, Items(ids));
    assert Body(ids)[|Encoded(|ids|)|..] == Items(ids);
    ItemsRoundTrip(ids);
    assert Packed(ids, compress)[|MAGIC|..] == compress(Body(ids));
  }

  /** What a row stores comes back, for every list: from the packed column or, when the list is empty and nothing
      is packed, from the legacy column. */
  lemma RowRoundTrip(ids: seq<MessageId>, legacy: seq<seq<byte>>, compress: seq<byte> -> seq<byte>,
                     decompress: seq<byte> -> Result<seq<byte>>, limit: nat)
    requires |ids| <= limit < 0x8000_0000_0000_0000 && (ids == [] ==> legacy == [])
    requires forall raw :: decompress(compress(raw)) == Ok(raw)
    ensures Unpacked(Packed(ids, compress), legacy, decompress, limit) == Ok(ids)
    ensures Unpacked([], legacy, decompress, limit) == Ok(legacy)
  {
    if ids != [] {
      PackRoundTrip(ids, legacy, compress, decompress, limit);
    }
  }

  /** The format byte by byte: a count, and before each string its length, seven bits a byte, the low ones first. */
  lemma FormatExample(id: MessageId)
    requires |id| == 300
    ensures Body([id, []]) == [2, 0xac, 2] + id + [0]
    ensures Packed([id, []], raw => raw) == MAGIC + ([2, 0xac, 2] + id + [0])
  {
    assert Encoded(2) == [2] && Encoded(0) == [0];
    assert Encoded(300) == [0xac] + Encoded(2) == [0xac, 2];
    var ids: seq<MessageId> := [id, []];
    assert ids[1..] == [[]] && ids[1..][1..] == [];
    assert Items([]) == [] && Items(ids[1..]) == [0];
    assert Items(ids) == [0xac, 2] + id + [0];
  }

  lemma {:induction false} ItemsCut(ids: seq<MessageId>, cut: seq<byte>)
    requires cut <= Items(ids) && |cut| < |Items(ids)|
    ensures ItemsOf(cut, |ids|).Err? && ItemsOf(cut, |ids|) != Err(Panic)
  {
    hide Encoded, UvarintFrom, NextItem;
    var e, id, rest := Encoded(|ids[0]|), ids[0], Items(ids[1..]);
    assert Items(ids) == (e + id) + rest;
    if |cut| < |e| + |id| {
      ItemCut(id, rest, cut);
    } else {
      var tail := CutBehind(e + id, rest, cut);
      NextItemOf(id, tail);
      ItemsCut(ids[1..], tail);
    }
  }

  /** What is left of a cut behind a part that it holds whole. */
  lemma CutBehind<T>(part: seq<T>, rest: seq<T>, cut: seq<T>) returns (tail: seq<T>)
    requires cut <= part + rest && |part| <= |cut| < |part + rest|
    ensures cut == part + tail && tail <= rest && |tail| < |rest|
  {
    tail := cut[|part|..];
    assert cut == (part + rest)[..|cut|];
  }

  /** An item cut anywhere is no item. */
  lemma ItemCut(id: MessageId, rest: seq<byte>, cut: seq<byte>)
    requires cut <= (Encoded(|id|) + id) + rest && |cut| < |Encoded(|id|)| + |id|
    ensures NextItem(cut).Err? && NextItem(cut) != Err(Panic)
  {
    hide Encoded, UvarintFrom;
    var e := Encoded(|id|);
    assert cut == ((e + id) + rest)[..|cut|];
    if |cut| < |e| {
      assert cut == e[..|cut|];
      UvarintCut(cut, |id|);
    } else {
      var behind := cut[|e|..];
      assert cut == e + behind;
      UvarintRoundTrip(|id|, behind);
    }
  }

  /** Every proper prefix of a body is rejected, and so is a body with anything behind it. */
  lemma BodyExact(ids: seq<MessageId>, cut: seq<byte>, extra: seq<byte>, limit: nat)
    requires |ids| <= limit < 0x8000_0000_0000_0000
    ensures cut <= Body(ids) && |cut| < |Body(ids)| ==> IdsOf(cut, limit).Err? && IdsOf(cut, limit) != Err(Panic)
    ensures extra != [] ==> IdsOf(Body(ids) + extra, limit) == Err(TrailingData)
  {
    if cut <= Body(ids) && |cut| < |Body(ids)| {
      BodyCut(ids, cut, limit);
    }
    if extra != [] {
      var e := Encoded(|ids|);
      assert Body(ids) + extra == e + (Items(ids) + extra);
      UvarintRoundTrip(|ids|, Items(ids) + extra);
      assert (Body(ids) + extra)[|e|..] == Items(ids) + extra;
      ItemsTrailing(ids, extra);
    }
  }

  lemma BodyCut(ids: seq<MessageId>, cut: seq<byte>, limit: nat)
    requires |ids| <= limit < 0x8000_0000_0000_0000 && cut <= Body(ids) && |cut| < |Body(ids)|
    ensures IdsOf(cut, limit).Err? && IdsOf(cut, limit) != Err(Panic)
  {
    var e := Encoded(|ids|);
    if |cut| < |e| {
      assert cut <= e by { assert cut == Body(ids)[..|cut|] == e[..|cut|]; }
      UvarintCut(cut, |ids|);
    } else {
      var behind := cut[|e|..];
      assert cut == e + behind;
      UvarintRoundTrip(|ids|, behind);
      assert behind <= Items(ids);
      ItemsCut(ids, behind);
    }
  }

  lemma {:induction false} ItemsTrailing(ids: seq<MessageId>, extra: seq<byte>)
    requires extra != []
    ensures ItemsOf(Items(ids) + extra, |ids|) == Err(TrailingData)
  {
    if ids == [] {
      assert Items(ids) + extra == extra;
    } else {
      var first, rest := Encoded(|ids[0]|) + ids[0], Items(ids[1..]);
      assert (first + rest) + extra == first + (rest + extra);
      NextItemOf(ids[0], rest + extra);
      ItemsTrailing(ids[1..], extra);
    }
  }

  lemma {:induction false} ItemsNeverPanic(body: seq<byte>, count: nat)
    ensures ItemsOf(body, count) != Err(Panic)
  {
    if count > 0 && NextItem(body).Ok? {
      ItemsNeverPanic(NextItem(body).value.1, count - 1);
    }
  }

  /** The program panics exactly on bodies that claim more strings than it can make room for, however short
      they are. */
  lemma PanicsExactly(body: seq<byte>, limit: nat)
    ensures IdsOf(body, limit) == Err(Panic) <==> UvarintFrom(body, 0).n > 0 && UvarintFrom(body, 0).value > limit
  {
    UvarintBounds(body, 0);
    var count := UvarintFrom(body, 0);
    if 0 < count.n {
      ItemsNeverPanic(body[count.n..], count.value);
    }
  }

  /** Whatever the program can make room for, ten bytes are enough to make it panic. */
  lemma PanicExample(limit: nat)
    requires limit < 0x8000_0000_0000_0000
    ensures IdsOf(Encoded(limit + 1), limit) == Err(Panic) && |Encoded(limit + 1)| <= 10
  {
    UvarintRoundTrip(limit + 1, []);
    assert Encoded(limit + 1) + [] == Encoded(limit + 1);
    assert 2 * Pow128(9) == 0x1_0000_0000_0000_0000 && Pow128(10) > Pow128(9);
    EncodedLength(limit + 1, 10);
  }
}
