/** Bytes and the ASCII character classes of the game.
    The game keeps every character in a plain `char`, which is unsigned on the
    target, so a character is modelled as an integer in 0..255. */
module Ascii {

  type byte = x: int | 0 <= x < 256

  const Space: byte := 32

  /** 'A'..'Z' */
  predicate IsUpper(c: int) {
    65 <= c <= 90
  }

  /** 'a'..'z' */
  predicate IsLower(c: int) {
    97 <= c <= 122
  }

  predicate IsLetter(c: int) {
    IsUpper(c) || IsLower(c)
  }

  /** The truncation performed when the `int` returned by the decoder is
      stored into a `char`. */
  function ToByte(v: nat): (r: byte)
    ensures v < 256 ==> r == v
    ensures r < 256 && (r - v) % 256 == 0
  {
    v % 256
  }

  /** A zero-filled buffer, as left by `= {0}` or by the clearing loop. */
  function Zeros(n: nat): (r: seq<byte>)
    ensures |r| == n
    ensures forall i :: 0 <= i < n ==> r[i] == 0
  {
    seq(n, _ => 0)
  }

  /** The bytes of a text made of 8-bit characters. */
  function Text(s: string): (r: seq<byte>)
    requires forall i :: 0 <= i < |s| ==> s[i] as int < 256
    ensures |r| == |s|
    ensures forall i :: 0 <= i < |s| ==> r[i] == s[i] as int
  {
    seq(|s|, i requires 0 <= i < |s| => s[i] as int)
  }
}
