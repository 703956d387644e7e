/** Fixed-width Rust integers, the big-endian helpers of the `byteorder` crate,
    slice copies, and panics modelled as a result value. */
module Bytes {

  type u8 = x: int | 0 <= x < 0x100
  type u16 = x: int | 0 <= x < 0x1_0000
  type u32 = x: int | 0 <= x < 0x1_0000_0000

  /** Why a Rust slice operation panicked. */
  datatype PanicReason =
    | IndexOutOfRange   // a range index past the end of a slice
    | LengthMismatch    // `copy_from_slice` between slices of different lengths

  /** The outcome of an operation that either returns or panics. */
  datatype Result<T> = Ok(value: T) | Panic(reason: PanicReason)

  /** `n` zero bytes. */
  function Zeros(n: nat): (z: seq<u8>)
    ensures |z| == n && forall i :: 0 <= i < n ==> z[i] == 0
  {
    seq(n, _ => 0)
  }

  /** `u16::to_be_bytes`, which `BigEndian::write_u16` stores. */
  function U16ToBE(x: u16): (b: seq<u8>)
    ensures |b| == 2 && (b[0] as int) * 0x100 + (b[1] as int) == x
  {
    [x / 0x100, x % 0x100]
  }

  /** `u16::from_be_bytes([hi, lo])`. */
  function U16FromBE(hi: u8, lo: u8): (x: u16)
    ensures x / 0x100 == hi && x % 0x100 == lo
  {
    (hi as int) * 0x100 + (lo as int)
  }

  /** `BigEndian::read_u16(&s[at..at + 2])`. */
  function ReadU16BE(s: seq<u8>, at: nat): (x: u16)
    requires at + 2 <= |s|
    ensures U16ToBE(x) == s[at..at + 2]
  {
    U16FromBE(s[at], s[at + 1])
  }

  /** `u32::wrapping_add`. */
  function WrappingAddU32(a: u32, b: u32): u32
  {
    (a + b) % 0x1_0000_0000
  }

  /** A slice copy of `src` into `dst[at..at + |src|]` (`copy_from_slice`,
      `ptr::copy`, `io::Write` on a byte slice): the rest of `dst` is kept. */
  method CopyInto(dst: array<u8>, at: nat, src: seq<u8>)
    requires at + |src| <= dst.Length
    modifies dst
    ensures dst[..] == old(dst[..at]) + src + old(dst[at + |src|..])
  {
    forall i | 0 <= i < |src| {
      dst[at + i] := src[i];
    }
  }

  /** `BigEndian::write_u16(&mut dst[at..at + 2], x)`. */
  method WriteU16BE(dst: array<u8>, at: nat, x: u16)
    requires at + 2 <= dst.Length
    modifies dst
    ensures dst[..] == old(dst[..at]) + U16ToBE(x) + old(dst[at + 2..])
  {
    var b := U16ToBE(x);
    dst[at] := b[0];
    dst[at + 1] := b[1];
  }
}
