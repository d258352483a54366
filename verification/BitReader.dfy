/** The bit reader of the inflater: bits leave each byte from the least significant end. */
module BitReader {
  import opened Bytes

  // ---- the stream as a sequence of bits ----

  type Bit = b: int | 0 <= b < 2 witness 0

  /** Bit k of number x. */
  function BitOf(x: nat, k: nat): Bit
    decreases k
  {
    if k == 0 then x % 2 else BitOf(x / 2, k - 1)
  }

  /** All bits of the bytes, least significant first. */
  function Unpack(src: seq<Byte>): (bits: seq<Bit>)
    ensures |bits| == 8 * |src|
    ensures forall i, k {:trigger BitOf(src[i], k)} :: 0 <= i < |src| && 0 <= k < 8 ==> bits[8 * i + k] == BitOf(src[i], k)
  {
    if src == [] then [] else Unpack(src[..|src| - 1]) + seq(8, (k: nat) => BitOf(src[|src| - 1], k))
  }

  /** The number that the n bits from p on write, first bit lowest. */
  function Value(bits: seq<Bit>, p: nat, n: nat): (v: nat)
    requires p + n <= |bits|
    ensures v < Pow2(n)
    decreases n
  {
    if n == 0 then 0 else bits[p] + 2 * Value(bits, p + 1, n - 1)
  }

  /** Splitting a run of bits. */
  lemma {:induction false} ValueSplit(bits: seq<Bit>, p: nat, m: nat, n: nat)
    requires p + m + n <= |bits|
    ensures Value(bits, p, m + n) == Value(bits, p, m) + Pow2(m) * Value(bits, p + m, n)
    decreases m
  {
    if m > 0 {
      ValueSplit(bits, p + 1, m - 1, n);
      Distribute(Value(bits, p + 1, m - 1), Pow2(m - 1), Value(bits, p + m, n));
    }
  }

  lemma Distribute(a: nat, p: nat, v: nat)
    ensures 2 * (a + p * v) == 2 * a + (2 * p) * v
  {}

  /** Eight bits at a byte boundary are the byte. */
  lemma ByteValue(src: seq<Byte>, i: nat)
    requires i < |src|
    ensures Value(Unpack(src), 8 * i, 8) == src[i]
  {
    var bits, x := Unpack(src), src[i];
    forall k: nat | k < 8 ensures bits[8 * i + k] == BitOf(x, k) {}
    Pow2Eight();
    BitsOf(x, bits, 8 * i, 8);
  }

  lemma Pow2Eight()
    ensures Pow2(8) == 256
  {
    assert Pow2(2) == 4;
    assert Pow2(4) == 16;
    assert Pow2(6) == 64;
  }

  lemma {:induction false} BitsOf(x: nat, bits: seq<Bit>, p: nat, n: nat)
    requires p + n <= |bits| && x < Pow2(n) && forall k: nat | k < n :: bits[p + k] == BitOf(x, k)
    ensures Value(bits, p, n) == x
    decreases n
  {
    if n > 0 {
      forall k: nat | k < n - 1 ensures bits[p + 1 + k] == BitOf(x / 2, k) {
        assert bits[p + (k + 1)] == BitOf(x, k + 1);
      }
      BitsOf(x / 2, bits, p + 1, n - 1);
      assert bits[p + 0] == BitOf(x, 0);
    }
  }

  lemma DivideBy(a: nat, p: nat, v: nat)
    requires a < p
    ensures (a + p * v) % p == a && (a + p * v) / p == v
  {
    var q, r := (a + p * v) / p, (a + p * v) % p;
    assert p * q + r == a + p * v;
    assert p * (v - q) == p * v - p * q && p * (q - v) == p * q - p * v;
    if v > q { AtLeast(p, v - q); } else if v < q { AtLeast(p, q - v); }
  }

  lemma AtLeast(p: nat, k: nat)
    requires k > 0
    ensures p * k >= p
  {
    assert p * k == p * (k - 1) + p;
  }

  /** The next byte goes above the bits that are held. */
  lemma LoadOne(src: seq<Byte>, at: nat, pos: nat)
    requires at <= 8 * pos && pos < |src|
    ensures Value(Unpack(src), at, 8 * pos - at + 8) == Value(Unpack(src), at, 8 * pos - at) + src[pos] * Pow2(8 * pos - at)
  {
    hide Unpack;
    hide Value;
    hide Pow2;
    ByteValue(src, pos);
    ValueSplit(Unpack(src), at, 8 * pos - at, 8);
  }

  /** The lowest bits are the first ones, the others stay. */
  lemma TakeSome(bits: seq<Bit>, at: nat, need: nat, rest: nat)
    requires at + need + rest <= |bits|
    ensures Value(bits, at, need + rest) % Pow2(need) == Value(bits, at, need)
    ensures Value(bits, at, need + rest) / Pow2(need) == Value(bits, at + need, rest)
  {
    hide Value;
    hide Pow2;
    ValueSplit(bits, at, need, rest);
    DivideBy(Value(bits, at, need), Pow2(need), Value(bits, at + need, rest));
  }

  /** struct bit_reader */
  class Reader {
    const src: seq<Byte>
    var pos: nat
    var bitbuf: nat
    var bitcnt: nat

    constructor (src: seq<Byte>)
      ensures this.src == src && Valid() && At() == 0
    {
      this.src := src;
      pos, bitbuf, bitcnt := 0, 0, 0;
    }

    /** Fewer than eight bits are held, and they are the next ones. */
    ghost predicate Valid()
      reads this
    {
      && pos <= |src| && bitcnt < 8 && bitcnt <= 8 * pos
      && bitbuf == Value(Unpack(src), 8 * pos - bitcnt, bitcnt)
    }

    /** Position in the stream, in bits. */
    ghost function At(): nat
      reads this
      requires bitcnt <= 8 * pos
    {
      8 * pos - bitcnt
    }

    ghost function Bits(): seq<nat> { Unpack(src) }

    /** getbits: false when the stream ends first. */
    method GetBits(need: nat) returns (ok: bool, out: nat)
      requires Valid() && need <= 16
      modifies `pos, `bitbuf, `bitcnt
      ensures ok <==> old(At()) + need <= 8 * |src|
      ensures ok ==> Valid() && At() == old(At()) + need && out == Value(Bits(), old(At()), need)
    {
      hide Unpack;
      hide Value;
      hide Pow2;
      ghost var at := At();
      while bitcnt < need
        invariant pos <= |src| && bitcnt <= 8 * pos && At() == at && bitcnt < need + 8
        invariant bitbuf == Value(Bits(), at, bitcnt)
        invariant bitcnt >= 8 ==> bitcnt - 8 < need
        decreases need + 8 - bitcnt
      {
        if pos >= |src| { return false, 0; }
        LoadOne(src, at, pos);
        bitbuf := bitbuf + src[pos] * Pow2(bitcnt);
        pos := pos + 1;
        bitcnt := bitcnt + 8;
      }
      TakeSome(Bits(), at, need, bitcnt - need);
      out := bitbuf % Pow2(need);
      bitbuf := bitbuf / Pow2(need);
      bitcnt := bitcnt - need;
      ok := true;
    }

    /** byte_align: what is left of the current byte is dropped, and nothing else. */
    method ByteAlign()
      requires Valid()
      modifies `bitbuf, `bitcnt
      ensures Valid() && bitcnt == 0 && At() == (old(At()) + 7) / 8 * 8
    {
      bitbuf, bitcnt := 0, 0;
    }
  }
}
