/** Bytes: CRC32 of IEEE 802.3 as a fold over them, and little-endian numbers. */
module Crc {
  import opened Bytes
  type Word = x: int | 0 <= x < 0x1_0000_0000

  function Xor(a: nat, b: nat): (c: nat)
    decreases a
  {
    if a == 0 then b else (a + b) % 2 + 2 * Xor(a / 2, b / 2)
  }

  lemma {:induction false} XorBound(a: nat, b: nat, n: nat)
    requires a < Pow2(n) && b < Pow2(n)
    ensures Xor(a, b) < Pow2(n)
    decreases n
  {
    if n > 0 && a > 0 { XorBound(a / 2, b / 2, n - 1); }
  }

  lemma Pow2Word()
    ensures Pow2(32) == 0x1_0000_0000
  {
    assert Pow2(4) == 16;
    assert Pow2(8) == 256;
    assert Pow2(12) == 0x1000;
    assert Pow2(16) == 0x1_0000;
    assert Pow2(20) == 0x10_0000;
    assert Pow2(24) == 0x100_0000;
    assert Pow2(28) == 0x1000_0000;
  }

  function XorWord(a: Word, b: Word): Word
  {
    Pow2Word();
    XorBound(a, b, 32);
    Xor(a, b)
  }

  /** An entry of the table: k rounds of the polynomial. */
  function Rounds(r: Word, k: nat): Word
    decreases k
  {
    if k == 0 then r else Rounds(if r % 2 == 1 then XorWord(r / 2, 0xEDB88320) else r / 2, k - 1)
  }

  function Step(crc: Word, x: Byte): Word
  {
    XorWord(Rounds(XorWord(x, crc % 256), 8), crc / 256)
  }

  function Fold(crc: Word, s: seq<Byte>): Word
    decreases |s|
  {
    if s == [] then crc else Fold(Step(crc, s[0]), s[1..])
  }

  function Not(x: Word): Word { 0xffff_ffff - x }

  /** xz_crc32: continues from a checksum. */
  function Crc32(s: seq<Byte>, crc: Word): Word { Not(Fold(Not(crc), s)) }

  lemma {:induction false} FoldSplit(crc: Word, a: seq<Byte>, b: seq<Byte>)
    ensures Fold(crc, a + b) == Fold(Fold(crc, a), b)
    decreases |a|
  {
    hide Step;
    if a == [] {
      assert a + b == b;
    } else {
      assert (a + b)[1..] == a[1..] + b;
      FoldSplit(Step(crc, a[0]), a[1..], b);
    }
  }

  /** The checksum of bytes that come in two parts. */
  lemma CrcSplit(a: seq<Byte>, b: seq<Byte>, crc: Word)
    ensures Crc32(a + b, crc) == Crc32(b, Crc32(a, crc))
  {
    hide Fold;
    FoldSplit(Not(crc), a, b);
  }

  // ---- little-endian numbers ----

  /** The n lowest bytes of a number, lowest first. */
  function Little(x: nat, n: nat): (s: seq<Byte>)
    ensures |s| == n
    decreases n
  {
    if n == 0 then [] else [x % 256] + Little(x / 256, n - 1)
  }

  function FromLittle(s: seq<Byte>): nat
    decreases |s|
  {
    if s == [] then 0 else s[0] + 256 * FromLittle(s[1..])
  }

  function Pow256(n: nat): (p: nat)
    ensures p >= 1
  {
    if n == 0 then 1 else 256 * Pow256(n - 1)
  }

  /** A number that fits is read back. */
  lemma {:induction false} LittleBack(x: nat, n: nat)
    requires x < Pow256(n)
    ensures FromLittle(Little(x, n)) == x
    decreases n
  {
    if n > 0 {
      LittleBack(x / 256, n - 1);
      assert Little(x, n)[1..] == Little(x / 256, n - 1);
    }
  }

  lemma {:induction false} FromLittleBound(s: seq<Byte>)
    ensures FromLittle(s) < Pow256(|s|)
    decreases |s|
  {
    if s != [] { FromLittleBound(s[1..]); }
  }
}
