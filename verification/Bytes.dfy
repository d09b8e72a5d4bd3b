/** Bytes, as integers. */
module Bytes {
  type Byte = c: int | 0 <= c < 256

  /** The bytes of a text of ASCII characters. */
  function Ascii(s: string): (b: seq<Byte>)
    ensures |b| == |s| && forall x :: 0 <= x < |s| ==> b[x] == s[x] as int % 256
  {
    seq(|s|, x requires 0 <= x < |s| => s[x] as int % 256)
  }
}
