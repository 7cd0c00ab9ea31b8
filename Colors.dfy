/** Bytes and packed 24-bit colours as the capture pipeline stores them. */
module Colors {

  /** An unsigned 8-bit value (`unsigned char`, `uint8_t`). */
  newtype byte = x: int | 0 <= x < 0x100

  datatype Option<T> = None | Some(value: T)

  /**
   * `(r << 16) | (g << 8) | b` for three bytes. The three shifted fields
   * occupy disjoint bits, so the bitwise or equals the sum written here.
   */
  function Pack(r: byte, g: byte, b: byte): int
  {
    r as int * 0x1_0000 + g as int * 0x100 + b as int
  }

  /**
   * `(c >> 16) & 0xFF`. On a two's-complement int an arithmetic right shift
   * is a floor division by a power of two, and masking with 0xFF keeps the
   * non-negative remainder modulo 256; Dafny's `/` and `%` on `int` with a
   * positive divisor are exactly these.
   */
  function Red(c: int): byte { ((c / 0x1_0000) % 0x100) as byte }

  /** `(c >> 8) & 0xFF`. */
  function Green(c: int): byte { ((c / 0x100) % 0x100) as byte }

  /** `c & 0xFF`. */
  function Blue(c: int): byte { (c % 0x100) as byte }

  /** The packed value of three channels is a 24-bit colour. */
  lemma PackRange(r: byte, g: byte, b: byte)
    ensures 0 <= Pack(r, g, b) < 0x100_0000
  {
  }

  /** Unpacking a packed colour gives back its three channels. */
  lemma UnpackPack(r: byte, g: byte, b: byte)
    ensures Red(Pack(r, g, b)) == r
    ensures Green(Pack(r, g, b)) == g
    ensures Blue(Pack(r, g, b)) == b
  {
    var c := Pack(r, g, b);
    assert c / 0x1_0000 == r as int;
    assert c / 0x100 == r as int * 0x100 + g as int;
  }

  /** Packing the channels of a 24-bit colour gives the colour back. */
  lemma PackUnpack(c: int)
    requires 0 <= c < 0x100_0000
    ensures Pack(Red(c), Green(c), Blue(c)) == c
  {
  }
}
