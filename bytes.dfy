/** Octets, ASCII literals and uppercase hexadecimal digits: the vocabulary every
    other module of the request signer works in. A Rust `&str` is modelled by its
    UTF-8 bytes. */
module Bytes {

  datatype Option<T> = None | Some(value: T)

  /** One octet, as Rust's `u8`. */
  type Byte = b: int | 0 <= b < 0x100

  type Bytes = seq<Byte>

  const SPACE: Byte := 0x20
  const PERCENT: Byte := 0x25
  const AMPERSAND: Byte := 0x26
  const STAR: Byte := 0x2A
  const PLUS: Byte := 0x2B
  const EQUALS: Byte := 0x3D
  const TILDE: Byte := 0x7E

  predicate IsAscii(s: string) {
    forall i :: 0 <= i < |s| ==> s[i] < 0x80 as char
  }

  /** The UTF-8 bytes of an ASCII string literal. */
  function Ascii(s: string): (r: Bytes)
    requires IsAscii(s)
    ensures |r| == |s|
    ensures forall i :: 0 <= i < |s| ==> r[i] == s[i] as int
  {
    seq(|s|, i requires 0 <= i < |s| => s[i] as int)
  }

  /** The uppercase hexadecimal digit for `d`: `0`-`9`, then `A`-`F`. */
  function HexDigit(d: int): (c: Byte)
    requires 0 <= d < 16
    ensures HexValue(c) == Some(d)
    ensures 0x30 <= c <= 0x39 || 0x41 <= c <= 0x46
  {
    if d < 10 then 0x30 + d else 0x41 + (d - 10)
  }

  /** The value of a hexadecimal digit of either case, as a percent-decoder reads it. */
  function HexValue(c: Byte): (r: Option<int>)
    ensures r.Some? ==> 0 <= r.value < 16
  {
    if 0x30 <= c <= 0x39 then Some(c - 0x30)
    else if 0x41 <= c <= 0x46 then Some(c - 0x41 + 10)
    else if 0x61 <= c <= 0x66 then Some(c - 0x61 + 10)
    else None
  }
}
