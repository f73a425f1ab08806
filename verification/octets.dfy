/** Bytes as the PHP program sees them: binary strings, and the unsigned
    16-bit big-endian integers (`pack`/`unpack` format `n`) of the wire format. */
module Octets {

  /** One byte of a PHP binary string. */
  type Byte = b: int | 0 <= b < 256

  type Bytes = seq<Byte>

  /** The byte that makes `fgets` stop reading. */
  const NEWLINE: Byte := 10

  /** The separator of the fields of a request. */
  const COLON: Byte := 58

  /** Every character of a text literal fits in one byte. */
  predicate OneByte(s: string)
  {
    forall i :: 0 <= i < |s| ==> s[i] as int < 256
  }

  /** The bytes of a text literal whose characters all fit in one byte. */
  function Ascii(s: string): Bytes
    requires OneByte(s)
  {
    seq(|s|, i requires 0 <= i < |s| => s[i] as int)
  }

  /** `unpack('n', hi . lo)`: two bytes read as a big-endian unsigned 16-bit value. */
  function Unpack16(hi: Byte, lo: Byte): (n: nat)
    ensures n < 0x1_0000
    ensures n / 256 == hi && n % 256 == lo
  {
    hi * 256 + lo
  }

  /** `pack('n', n)`: the two big-endian bytes of a 16-bit value. */
  function Pack16(n: nat): (b: Bytes)
    requires n < 0x1_0000
    ensures |b| == 2
    ensures Unpack16(b[0], b[1]) == n
  {
    [n / 256, n % 256]
  }

  /** Every pair of bytes is the packing of exactly one 16-bit value. */
  lemma PackUnpack(hi: Byte, lo: Byte)
    ensures Pack16(Unpack16(hi, lo)) == [hi, lo]
  {
  }

  /** Packing is injective: two values with the same bytes are equal. */
  lemma PackInjective(m: nat, n: nat)
    requires m < 0x1_0000 && n < 0x1_0000
    requires Pack16(m) == Pack16(n)
    ensures m == n
  {
    assert Unpack16(Pack16(m)[0], Pack16(m)[1]) == m;
  }
}
