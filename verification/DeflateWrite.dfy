/** A writer for the format that the inflater reads, and that every list of tokens comes back. */
module DeflateWrite {
  import opened Bytes
  import opened BitReader
  import opened Huffman
  import opened Deflate
  import opened Inflate

  // ---- every length and distance has a code ----

  lemma LengthsMeet(i: nat)
    requires i < 28
    ensures LengthBase(i + 1) <= LengthBase(i) + Pow2(LengthExtra(i))
    ensures LengthBase(0) == 3 && LengthBase(28) == 258 && LengthExtra(28) == 0
  {
    SmallPowers(5);
    SmallPowers(3);
    SmallPowers(2);
    SmallPowers(1);
  }

  lemma DistancesMeet(i: nat)
    requires i < 29
    ensures DistanceBase(i + 1) <= DistanceBase(i) + Pow2(DistanceExtra(i))
    ensures DistanceBase(0) == 1 && DistanceBase(29) + Pow2(DistanceExtra(29)) == 32769
  {
    AllPowers();
  }

  lemma AllPowers()
    ensures Pow2(0) == 1 && Pow2(1) == 2 && Pow2(2) == 4 && Pow2(3) == 8 && Pow2(4) == 16 && Pow2(5) == 32 && Pow2(6) == 64
    ensures Pow2(7) == 128 && Pow2(8) == 256 && Pow2(9) == 512 && Pow2(10) == 1024 && Pow2(11) == 2048
    ensures Pow2(12) == 4096 && Pow2(13) == 8192
  {
    hide Pow2;
    forall k: nat | 1 <= k <= 13 ensures Pow2(k) == 2 * Pow2(k - 1) { SmallPowers(k); }
    SmallPowers(0);
  }

  lemma {:induction false} LengthCode(length: nat, i: nat) returns (li: nat)
    requires i < 29 && LengthBase(i) <= length <= 258
    ensures li < 29 && LengthBase(li) <= length < LengthBase(li) + Pow2(LengthExtra(li))
    decreases 29 - i
  {
    hide LengthBase;
    hide LengthExtra;
    if i == 28 || length < LengthBase(i + 1) {
      li := i;
      if i == 28 { LengthsMeet(0); SmallPowers(0); } else { LengthsMeet(i); }
    } else {
      li := LengthCode(length, i + 1);
    }
  }

  lemma {:induction false} DistanceCode(distance: nat, i: nat) returns (di: nat)
    requires i < 30 && DistanceBase(i) <= distance <= 32768
    ensures di < 30 && DistanceBase(di) <= distance < DistanceBase(di) + Pow2(DistanceExtra(di))
    decreases 30 - i
  {
    hide DistanceBase;
    hide DistanceExtra;
    if i == 29 || distance < DistanceBase(i + 1) {
      di := i;
      DistancesMeet(if i == 29 then 0 else i);
    } else {
      di := DistanceCode(distance, i + 1);
    }
  }

  /** Copies of every length from 3 to 258 over every distance from 1 to 32768 can be written. */
  lemma EveryCopy(length: nat, distance: nat) returns (t: Token)
    requires 3 <= length <= 258 && 1 <= distance <= 32768
    ensures t.Copy? && t.Valid() && t.Length() == length && t.Distance() == distance
  {
    LengthsMeet(0);
    DistancesMeet(0);
    var li := LengthCode(length, 0);
    var di := DistanceCode(distance, 0);
    t := Copy(li, length - LengthBase(li), di, distance - DistanceBase(di));
  }

  // ---- writing ----

  /** n bits, lowest first. */
  function LowBits(v: nat, n: nat): (d: seq<Bit>)
    ensures |d| == n
    decreases n
  {
    if n == 0 then [] else [v % 2] + LowBits(v / 2, n - 1)
  }

  /** The bits from p on begin with d. */
  predicate Next(bits: seq<Bit>, p: nat, d: seq<Bit>) { p + |d| <= |bits| && bits[p..p + |d|] == d }

  lemma NextParts(bits: seq<Bit>, p: nat, d: seq<Bit>, e: seq<Bit>)
    requires Next(bits, p, d + e)
    ensures Next(bits, p, d) && Next(bits, p + |d|, e)
  {
    assert bits[p..p + |d|] == bits[p..p + |d + e|][..|d|];
    assert bits[p + |d|..p + |d| + |e|] == bits[p..p + |d + e|][|d|..];
  }

  lemma {:induction false} FieldWritten(v: nat, n: nat, bits: seq<Bit>, p: nat)
    requires v < Pow2(n) && Next(bits, p, LowBits(v, n))
    ensures FieldAt(bits, p, n, v)
    decreases n
  {
    if n > 0 {
      NextParts(bits, p, [v % 2], LowBits(v / 2, n - 1));
      FieldWritten(v / 2, n - 1, bits, p + 1);
      assert bits[p] == bits[p..p + 1][0];
    }
  }

  /** The token's symbols have codes. */
  predicate Writable(ll: seq<nat>, dl: seq<nat>, t: Token)
  {
    && t.Valid()
    && match t
       case Literal(b) => Coded(ll, b)
       case Copy(li, _, di, _) => Coded(ll, 257 + li) && Coded(dl, di)
  }

  function TokenBits(ll: seq<nat>, dl: seq<nat>, t: Token): (d: seq<Bit>)
    requires Writable(ll, dl, t)
    ensures |d| == TokenSize(ll, dl, t)
  {
    match t
    case Literal(b) => Codeword(ll, b)
    case Copy(li, extra, di, dextra) =>
      Codeword(ll, 257 + li) + LowBits(extra, LengthExtra(li)) + Codeword(dl, di) + LowBits(dextra, DistanceExtra(di))
  }

  predicate AllWritable(ll: seq<nat>, dl: seq<nat>, ts: seq<Token>) { forall t :: t in ts ==> Writable(ll, dl, t) }

  function TokensBits(ll: seq<nat>, dl: seq<nat>, ts: seq<Token>): seq<Bit>
    requires AllWritable(ll, dl, ts) && Coded(ll, END)
    decreases |ts|
  {
    if ts == [] then Codeword(ll, END) else TokenBits(ll, dl, ts[0]) + TokensBits(ll, dl, ts[1..])
  }

  ghost predicate Usable(L: seq<nat>) { Short(L) && !Oversubscribed(L) }

  lemma CodeWritten(L: seq<nat>, s: nat, bits: seq<Bit>, p: nat)
    requires Usable(L) && Coded(L, s) && Next(bits, p, Codeword(L, s))
    ensures CodeAt(L, s, bits, p) && |Codeword(L, s)| == L[s]
  {
    hide Digits;
    hide Code;
    CodewordAt(L, s, bits, p);
  }

  lemma TokenWritten(ll: seq<nat>, dl: seq<nat>, bits: seq<Bit>, p: nat, t: Token)
    requires Usable(ll) && Usable(dl) && Writable(ll, dl, t) && Next(bits, p, TokenBits(ll, dl, t))
    ensures TokenAt(ll, dl, bits, p, t)
  {
    hide Short;
    hide Oversubscribed;
    hide CodeAt;
    hide Code;
    hide Digits;
    hide LowBits;
    hide LengthBase;
    hide LengthExtra;
    hide DistanceBase;
    hide DistanceExtra;
    hide Value;
    hide Next;
    hide Codeword;
    match t
    case Literal(b) => CodeWritten(ll, b, bits, p);
    case Copy(li, extra, di, dextra) =>
      var a, b := Codeword(ll, 257 + li), LowBits(extra, LengthExtra(li));
      var c, d := Codeword(dl, di), LowBits(dextra, DistanceExtra(di));
      NextParts(bits, p, a + b + c, d);
      NextParts(bits, p, a + b, c);
      NextParts(bits, p, a, b);
      CodeWritten(ll, 257 + li, bits, p);
      FieldWritten(extra, LengthExtra(li), bits, p + |a|);
      CodeWritten(dl, di, bits, p + |a| + |b|);
      FieldWritten(dextra, DistanceExtra(di), bits, p + |a| + |b| + |c|);
  }

  /** What the writer writes for a list of tokens spells that list, whatever stands around it. */
  lemma {:induction false} TokensWritten(ll: seq<nat>, dl: seq<nat>, bits: seq<Bit>, p: nat, ts: seq<Token>)
    requires Usable(ll) && Usable(dl) && AllWritable(ll, dl, ts) && Coded(ll, END) && Next(bits, p, TokensBits(ll, dl, ts))
    ensures TokensAt(ll, dl, bits, p, ts)
    decreases |ts|
  {
    hide Short;
    hide Oversubscribed;
    hide CodeAt;
    hide Codeword;
    hide TokenAt;
    hide TokenBits;
    hide Next;
    hide TokenSize;
    if ts == [] {
      CodeWritten(ll, END, bits, p);
    } else {
      NextParts(bits, p, TokenBits(ll, dl, ts[0]), TokensBits(ll, dl, ts[1..]));
      TokenWritten(ll, dl, bits, p, ts[0]);
      TokensWritten(ll, dl, bits, p + TokenSize(ll, dl, ts[0]), ts[1..]);
    }
  }

  // ---- bits into bytes ----

  function Pack(bits: seq<Bit>): (src: seq<Byte>)
    requires |bits| % 8 == 0
    ensures |src| == |bits| / 8
    decreases |bits|
  {
    Pow2Eight();
    if bits == [] then [] else [Value(bits, 0, 8)] + Pack(bits[8..])
  }

  lemma {:induction false} ValueBits(bits: seq<Bit>, p: nat, n: nat, k: nat)
    requires p + n <= |bits| && k < n
    ensures BitOf(Value(bits, p, n), k) == bits[p + k]
    decreases k
  {
    if k > 0 {
      assert Value(bits, p, n) / 2 == Value(bits, p + 1, n - 1);
      ValueBits(bits, p + 1, n - 1, k - 1);
    }
  }

  /** Taking the bytes apart gives the bits back. */
  lemma UnpackPack(bits: seq<Bit>)
    requires |bits| % 8 == 0
    ensures Unpack(Pack(bits)) == bits
  {
    hide Unpack;
    hide Pack;
    forall j | 0 <= j < |bits| ensures Unpack(Pack(bits))[j] == bits[j] { PackedBit(bits, j); }
  }

  lemma PackedBit(bits: seq<Bit>, j: nat)
    requires |bits| % 8 == 0 && j < |bits|
    ensures Unpack(Pack(bits))[j] == bits[j]
  {
    hide Value;
    hide Unpack;
    var i, k := j / 8, j % 8;
    PackedByte(bits, i);
    ValueBits(bits, 8 * i, 8, k);
    assert Unpack(Pack(bits))[8 * i + k] == BitOf(Pack(bits)[i], k);
  }

  lemma {:induction false} PackedByte(bits: seq<Bit>, i: nat)
    requires |bits| % 8 == 0 && 8 * i < |bits|
    ensures Pack(bits)[i] == Value(bits, 8 * i, 8)
    decreases |bits|
  {
    hide Pow2;
    if i > 0 {
      PackedByte(bits[8..], i - 1);
      ValueShift(bits, 8, 8 * (i - 1), 8);
    }
  }

  lemma {:induction false} ValueShift(bits: seq<Bit>, d: nat, p: nat, n: nat)
    requires d + p + n <= |bits|
    ensures Value(bits[d..], p, n) == Value(bits, d + p, n)
    decreases n
  {
    if n > 0 { ValueShift(bits, d, p + 1, n - 1); }
  }

  // ---- a whole stream ----

  lemma FixedCoded(ts: seq<Token>)
    requires AllValid(ts)
    ensures AllWritable(FixedLengths(), FixedDistances(), ts) && Coded(FixedLengths(), END)
  {}

  /** Zero bits up to the end of the last byte. */
  function Padded(body: seq<Bit>): (bits: seq<Bit>)
    ensures |bits| % 8 == 0 && body <= bits
  {
    body + LowBits(0, Align(|body|) - |body|)
  }

  /** One last block with the fixed codes. */
  function FixedBits(ts: seq<Token>): (bits: seq<Bit>)
    requires AllWritable(FixedLengths(), FixedDistances(), ts) && Coded(FixedLengths(), END)
    ensures |bits| % 8 == 0
  {
    Padded([1, 1, 0] + TokensBits(FixedLengths(), FixedDistances(), ts))
  }

  /** Round trip: packed into bytes, it is a stream of exactly that block. */
  lemma FixedRoundTrip(ts: seq<Token>)
    requires AllValid(ts) && AllLegal([], ts)
    ensures AllWritable(FixedLengths(), FixedDistances(), ts) && Coded(FixedLengths(), END)
    ensures Spells(Pack(FixedBits(ts)), [Fixed(ts)]) && Decompressed([], [Fixed(ts)]) == Expand([], ts)
  {
    hide TokensAt;
    hide TokensBits;
    hide FixedLengths;
    hide FixedDistances;
    hide Short;
    hide Oversubscribed;
    hide Pack;
    hide Unpack;
    hide Expand;
    hide AllLegal;
    FixedCoded(ts);
    FixedCodes();
    var bits := FixedBits(ts);
    UnpackPack(bits);
    var body := TokensBits(FixedLengths(), FixedDistances(), ts);
    assert bits[3..3 + |body|] == ([1, 1, 0] + body)[3..];
    TokensWritten(FixedLengths(), FixedDistances(), bits, 3, ts);
    assert bits[0] == 1 && bits[1] == 1 && bits[2] == 0;
    HeadFields(bits);
    assert [Fixed(ts)][1..] == [];
    assert BlocksAt(bits, 0, [Fixed(ts)]);
    assert LegalBlock([], Fixed(ts)) && Meaning([], Fixed(ts)) == Expand([], ts);
    assert LegalStream([], [Fixed(ts)]);
  }

  lemma HeadFields(bits: seq<Bit>)
    requires |bits| >= 3 && bits[0] == 1 && bits[1] == 1 && bits[2] == 0
    ensures FieldAt(bits, 0, 1, 1) && FieldAt(bits, 1, 2, 1)
  {
    assert Value(bits, 1, 2) == 1 + 2 * (0 + 2 * Value(bits, 3, 0));
  }
}
