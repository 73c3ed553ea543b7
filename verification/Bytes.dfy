/** Byte-level vocabulary shared by every component of the stack model. */
module Bytes {
  /** An unsigned 8-bit value (`IzotByte`). */
  type byte = x: int | 0 <= x < 256

  const U16 := 0x1_0000
  const U32 := 0x1_0000_0000

  /** An unsigned 32-bit value; arithmetic on it is always written with an explicit `% U32`. */
  type u32 = x: int | 0 <= x < 0x1_0000_0000

  /** The longest value of a network variable. */
  const MAX_NV_LENGTH := 228

  function Bit(b: bool): nat {
    if b then 1 else 0
  }

  function Min(a: int, b: int): int {
    if a < b then a else b
  }

  /** `memcpy(&dst[at], src, |src|)`. */
  method CopyIn(dst: array<byte>, at: nat, src: seq<byte>)
    requires at + |src| <= dst.Length
    modifies dst
    ensures dst[..] == old(dst[..at]) + src + old(dst[at + |src|..])
  {
    var i := 0;
    while i < |src|
      invariant i <= |src|
      invariant forall k :: 0 <= k < dst.Length ==> dst[k] == if at <= k < at + i then src[k - at] else old(dst[k])
    {
      dst[at + i] := src[i];
      i := i + 1;
    }
    assert dst[..at] == old(dst[..at]) && dst[at..at + i] == src && dst[at + i..] == old(dst[at + i..]);
  }
}
