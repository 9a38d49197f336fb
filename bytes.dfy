/** Machine integers of the program image: bytes as read from the file and
    the 16-bit words of the emulator's memory, with `u16::from_be_bytes`. */
module Bytes {

  /** A `u8` of the file buffer. */
  newtype byte = x: int | 0 <= x < 0x100

  /** A `u16`: one memory cell, one register, one address. */
  newtype u16 = x: int | 0 <= x < 0x1_0000

  /** `u16::MAX`. */
  const U16Max: int := 0xFFFF

  /** `u16::from_be_bytes([hi, lo])`: the first byte is the most significant. */
  function FromBigEndian(hi: byte, lo: byte): (w: u16)
    ensures w as int / 0x100 == hi as int
    ensures w as int % 0x100 == lo as int
  {
    (hi as int * 0x100 + lo as int) as u16
  }

  /** `u16::to_be_bytes`: the high byte, then the low byte. */
  function ToBigEndian(w: u16): (bytes: (byte, byte))
    ensures bytes.0 as int * 0x100 + bytes.1 as int == w as int
  {
    ((w as int / 0x100) as byte, (w as int % 0x100) as byte)
  }

  /** Splitting a word into its two bytes and joining them again gives back the word. */
  lemma FromToBigEndian(w: u16)
    ensures FromBigEndian(ToBigEndian(w).0, ToBigEndian(w).1) == w
  {
  }

  /** Joining two bytes into a word and splitting it again gives back the bytes. */
  lemma ToFromBigEndian(hi: byte, lo: byte)
    ensures ToBigEndian(FromBigEndian(hi, lo)) == (hi, lo)
  {
  }

  /** Two byte pairs make the same word only if they are the same pair. */
  lemma FromBigEndianInjective(hi: byte, lo: byte, hi': byte, lo': byte)
    requires FromBigEndian(hi, lo) == FromBigEndian(hi', lo')
    ensures hi == hi' && lo == lo'
  {
    ToFromBigEndian(hi, lo);
    ToFromBigEndian(hi', lo');
  }
}
