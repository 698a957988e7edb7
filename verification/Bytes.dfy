/** Octets. */
module Bytes {
  type byte = x: int | 0 <= x < 256

  const SLASH: byte := 0x2F
  const BACKSLASH: byte := 0x5C

  /** The bytes of a string in ASCII. */
  function Ascii(s: string): (r: seq<byte>)
    requires forall i :: 0 <= i < |s| ==> s[i] as int < 128
    ensures |r| == |s| && forall i :: 0 <= i < |s| ==> r[i] == s[i] as int
  {
    seq(|s|, i requires 0 <= i < |s| => s[i] as int)
  }
}
