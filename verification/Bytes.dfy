/** Octets, big-endian fields and overwriting a field of a byte string. */
module Bytes {

  type byte = b: int | 0 <= b < 0x100
  type uint16 = w: int | 0 <= w < 0x1_0000
  type uint32 = w: int | 0 <= w < 0x1_0000_0000

  /** The big-endian 16-bit field at offset `off`. */
  function Word(s: seq<byte>, off: nat): (w: uint16)
    requires off + 2 <= |s|
  {
    0x100 * (s[off] as int) + s[off + 1]
  }

  /** `s` with the big-endian 16-bit field at `off` replaced by `w`. */
  function PutWord(s: seq<byte>, off: nat, w: uint16): (r: seq<byte>)
    requires off + 2 <= |s|
    ensures |r| == |s| && Word(r, off) == w
    ensures forall i :: 0 <= i < |s| && i != off && i != off + 1 ==> r[i] == s[i]
  {
    s[off := w / 0x100][off + 1 := w % 0x100]
  }

  /** `s` with the `|field|` bytes at `off` replaced by `field`. */
  function Overwrite(s: seq<byte>, off: nat, field: seq<byte>): (r: seq<byte>)
    requires off + |field| <= |s|
    ensures |r| == |s| && r[off..off + |field|] == field
    ensures forall i :: 0 <= i < off || off + |field| <= i < |s| ==> r[i] == s[i]
  {
    s[..off] + field + s[off + |field|..]
  }
}
