/** Octets of packets and of state buffers, and their numeric reading. */
module Bytes {
  type byte = n: int | 0 <= n < 256

  datatype Option<+T> = None | Some(value: T)

  /** The 16-bit number in network (big-endian) order at `s[i..i+2]`: be16toh() on a little-endian host. */
  function Be16(s: seq<byte>, i: nat): (n: nat)
    requires i + 2 <= |s|
    ensures n < 0x1_0000
  {
    256 * (s[i] as int) + s[i+1]
  }

  /** `s` with the low octet of `w` at `i` and the high octet at `i + 1`: a 16-bit store by a little-endian host. */
  function PutWord(s: seq<byte>, i: nat, w: nat): (r: seq<byte>)
    requires i + 2 <= |s| && w < 0x1_0000
    ensures |r| == |s|
    ensures forall k :: 0 <= k < |s| && k != i && k != i + 1 ==> r[k] == s[k]
    ensures r[i] + 256 * (r[i+1] as int) == w
  {
    s[i := w % 256][i+1 := w / 256]
  }
}
