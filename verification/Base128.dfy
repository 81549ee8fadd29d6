/** Base-128 integers: seven bits a byte, least significant first, the high bit set on every byte but
    the last. RAR5 headers and the packed message IDs both use them, with different length limits. */
module Base128 {
  import opened Bytes

  function Pow128(n: nat): int { if n == 0 then 1 else 0x80 * Pow128(n - 1) }

  function Encoded(v: nat): (e: seq<byte>)
    ensures |e| > 0
  {
    if v < 0x80 then [v as byte] else [(0x80 + v % 0x80) as byte] + Encoded(v / 0x80)
  }

  /** A value below 128^n takes at most n bytes. */
  lemma {:induction false} EncodedLength(v: nat, n: nat)
    requires v < Pow128(n) && n > 0
    ensures |Encoded(v)| <= n
  {
    if v >= 0x80 {
      assert v / 0x80 < Pow128(n - 1);
      EncodedLength(v / 0x80, n - 1);
    }
  }

  lemma Distribute(p: int, digit: int, value: int)
    ensures p * (digit + 0x80 * value) == digit * p + (0x80 * p) * value
  {
  }
}
