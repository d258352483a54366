/** Bytes and machine words, and sequences of bytes as buffers. */
module Bytes {
  type Byte = x: int | 0 <= x < 256

  /** How many numbers a 32-bit word can hold. */
  const WORD: nat := 0x1_0000_0000

  function Pow2(n: nat): (p: nat)
    ensures p >= 1
  {
    if n == 0 then 1 else 2 * Pow2(n - 1)
  }

  function Zeros(n: nat): (z: seq<Byte>)
    ensures |z| == n && forall i :: 0 <= i < n ==> z[i] == 0
  {
    seq(n, _ => 0)
  }

  /** Placing a field in a buffer. */
  function Put(s: seq<Byte>, off: nat, f: seq<Byte>): (r: seq<Byte>)
    requires off + |f| <= |s|
    ensures |r| == |s| && forall i :: 0 <= i < |s| ==> r[i] == if off <= i < off + |f| then f[i - off] else s[i]
  {
    s[..off] + f + s[off + |f|..]
  }
}
