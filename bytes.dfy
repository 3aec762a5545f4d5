/** Bytes and the 16-bit file identifiers of ISO/IEC 7816-4. */
module Bytes {
  /** An octet (the C type `u8`). */
  type byte = x: int | 0 <= x < 0x100

  /** An unsigned 16-bit value (the C type `unsigned short`), used for file identifiers. */
  type u16 = x: int | 0 <= x < 0x1_0000

  /** `(hi << 8) | lo`: the big-endian value of two bytes. */
  function Be16(hi: byte, lo: byte): u16 {
    hi * 0x100 + lo
  }

  /** `fid >> 8`: the first byte sent on the wire for a file identifier. */
  function Hi(x: u16): byte {
    x / 0x100
  }

  /** `fid & 0xff`: the second byte sent on the wire for a file identifier. */
  function Lo(x: u16): byte {
    x % 0x100
  }

  /** The two wire bytes of a file identifier, high byte first. */
  function FidBytes(x: u16): (r: seq<byte>)
    ensures |r| == 2
  {
    [Hi(x), Lo(x)]
  }

  /** Splitting a value into its bytes and joining them again gives the value back. */
  lemma JoinSplit(x: u16)
    ensures Be16(Hi(x), Lo(x)) == x
    ensures Be16(FidBytes(x)[0], FidBytes(x)[1]) == x
  {
  }

  /** Joining two bytes and splitting the value again gives the bytes back. */
  lemma SplitJoin(hi: byte, lo: byte)
    ensures Hi(Be16(hi, lo)) == hi && Lo(Be16(hi, lo)) == lo
    ensures FidBytes(Be16(hi, lo)) == [hi, lo]
  {
  }

  /** Two file identifiers are equal exactly when their wire bytes are. */
  lemma FidBytesInjective(x: u16, y: u16)
    ensures FidBytes(x) == FidBytes(y) <==> x == y
  {
    if FidBytes(x) == FidBytes(y) {
      JoinSplit(x);
      JoinSplit(y);
    }
  }
}
