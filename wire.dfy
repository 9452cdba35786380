/** Bytes on the SPI link and the bit layout shared by the command header and
    the cursor byte: three high bits and five low bits (`cccnnnnn`, `yyyxxxxx`).
    A byte is a number 0..255. The handler's shifts and masks are written
    here as division and remainder; `BitLayout` proves the two agree on
    every 8-bit pattern. */
module Wire {

  type Byte = x: int | 0 <= x < 256

  datatype Option<T> = None | Some(value: T)

  /** `b >> 5`: the opcode of a header byte, the row of a cursor byte. */
  function High(b: Byte): (r: Byte)
    ensures r < 8
  {
    b / 32
  }

  /** `b & 0x1F`: the length or sub-code of a header byte, the column of a cursor byte. */
  function Low(b: Byte): (r: Byte)
    ensures r < 32
  {
    b % 32
  }

  /** `(hi << 5) | lo`: the header of opcode `hi` and length `lo`, or the
      cursor byte of row `hi` and column `lo`. */
  function Pack(hi: Byte, lo: Byte): Byte
    requires hi < 8 && lo < 32
  {
    hi * 32 + lo
  }

  /** On 8-bit patterns, shifting right by five is division by 32, masking
      with 0x1F is the remainder, and shifting three bits left by five and
      or-ing in five low bits is `hi * 32 + lo`. */
  lemma BitLayout(x: bv8, hi: bv8, lo: bv8)
    requires hi < 8 && lo < 32
    ensures (x >> 5) as int == x as int / 32
    ensures (x & 0x1F) as int == x as int % 32
    ensures ((hi << 5) | lo) as int == hi as int * 32 + lo as int
  {
  }

  /** Splitting a byte and packing its two fields again gives back the byte. */
  lemma SplitRoundTrip(b: Byte)
    ensures Pack(High(b), Low(b)) == b
  {
  }

  /** Packing two fields and splitting the byte gives back the fields. */
  lemma PackRoundTrip(hi: Byte, lo: Byte)
    requires hi < 8 && lo < 32
    ensures High(Pack(hi, lo)) == hi && Low(Pack(hi, lo)) == lo
  {
  }

  /** The low eight bits of a wider value, as stored into the one-byte data
      register; for a negative value this is its two's-complement pattern. */
  function LowByte(x: int): (r: Byte)
    ensures 0 <= x < 256 ==> r == x
  {
    x % 256
  }
}
