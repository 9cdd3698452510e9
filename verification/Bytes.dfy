/**
Bytes and the small result type shared by every component.
*/
module Bytes {

  type Byte = x: int | 0 <= x < 256

  type Word = x: int | 0 <= x < 0x1_0000_0000

  datatype Option<+T> = None | Some(value: T)

  ghost predicate AllZero(s: seq<Byte>) {
    forall i :: 0 <= i < |s| ==> s[i] == 0
  }

  function Zeros(n: nat): (z: seq<Byte>)
    ensures |z| == n && AllZero(z)
  {
    seq(n, _ => 0)
  }

  /** The unaligned little-endian load of the first four bytes. */
  function LittleEndian(s: seq<Byte>): (w: Word)
    requires |s| >= 4
  {
    (s[0] as int) + 0x100 * (s[1] as int) + 0x1_0000 * (s[2] as int) + 0x100_0000 * (s[3] as int)
  }

  /** The little-endian store; loading it gives the word back. */
  function StoreLittleEndian(w: Word): (s: seq<Byte>)
    ensures |s| == 4 && LittleEndian(s) == w
    ensures s[0] == w % 256 && s[1] == w / 256 % 256 && s[2] == w / 65536 % 256 && s[3] == w / 16777216
  {
    var w1 := w / 0x100;
    var w2 := w1 / 0x100;
    [w % 0x100, w1 % 0x100, w2 % 0x100, w2 / 0x100]
  }
}
