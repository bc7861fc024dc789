/** Machine integers and the byte constants the scanner and decoder look for. */
module Bytes {

  /** Rust's `u8`: the element type of the input buffer. */
  newtype u8 = x: int | 0 <= x < 0x100

  /** Rust's `u32`: the accumulator of the decimal decoder and the running extremes. */
  newtype u32 = x: int | 0 <= x < 0x1_0000_0000

  const U32_MAX: u32 := 0xFFFF_FFFF
  const U32_MIN: u32 := 0

  const NL: u8 := 10     // b'\n', record terminator
  const SEMI: u8 := 59   // b';', key/value delimiter
  const DOT: u8 := 46    // b'.', decimal point
  const ZERO: u8 := 48   // b'0'
  const NINE: u8 := 57   // b'9'

  /** The bytes of an ASCII string literal, for writing concrete buffers. */
  function Ascii(s: string): (r: seq<u8>)
    requires forall j :: 0 <= j < |s| ==> s[j] as int < 0x100
    ensures |r| == |s|
    ensures forall j :: 0 <= j < |s| ==> r[j] as int == s[j] as int
  {
    seq(|s|, j requires 0 <= j < |s| => s[j] as int as u8)
  }
}
