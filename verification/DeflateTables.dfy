/** The tables of DEFLATE, each against its rule in sections 3.2.5 to 3.2.7 of RFC 1951. */
module DeflateTables {
  import opened Bytes
  import opened BitReader
  import opened Huffman
  import opened Deflate
  import opened Inflate
  import opened DeflateWrite

  // ---- lengths and distances ----

  /** Code 4 * q + r has q - 1 extra bits. */
  lemma ExtraStep(q: nat, r: nat)
    requires 1 <= q < 7 && r < 4
    ensures LengthExtra(4 * q + r) == q - 1
  {}

  lemma BaseStep(q: nat, r: nat)
    requires 1 <= q < 7 && r < 4
    ensures LengthBase(4 * q + r) == 3 + (4 + r) * Pow2(q - 1)
  {
    if q <= 3 { LowBase(q, r); } else { HighBase(q, r); }
  }

  lemma LowBase(q: nat, r: nat)
    requires 1 <= q <= 3 && r < 4
    ensures LengthBase(4 * q + r) == 3 + (4 + r) * Pow2(q - 1)
  {
    AllPowers();
    hide Pow2;
    if q == 1 { assert Pow2(q - 1) == 1; } else if q == 2 { assert Pow2(q - 1) == 2; } else { assert Pow2(q - 1) == 4; }
  }

  lemma HighBase(q: nat, r: nat)
    requires 4 <= q <= 6 && r < 4
    ensures LengthBase(4 * q + r) == 3 + (4 + r) * Pow2(q - 1)
  {
    AllPowers();
    hide Pow2;
    if q == 4 { assert Pow2(q - 1) == 8; } else if q == 5 { assert Pow2(q - 1) == 16; } else { assert Pow2(q - 1) == 32; }
  }

  /** Four length codes for each number of extra bits, the last code for 258 alone. */
  lemma LengthRule(i: nat)
    requires i < 29
    ensures i < 4 ==> LengthBase(i) == 3 + i && LengthExtra(i) == 0
    ensures 4 <= i < 28 ==> LengthBase(i) == 3 + (4 + i % 4) * Pow2(i / 4 - 1) && LengthExtra(i) == i / 4 - 1
    ensures i == 28 ==> LengthBase(i) == 258 && LengthExtra(i) == 0
  {
    hide *;
    if 4 <= i < 28 {
      ExtraStep(i / 4, i % 4);
      BaseStep(i / 4, i % 4);
      assert 4 * (i / 4) + i % 4 == i;
    } else {
      LengthEnds(i);
    }
  }

  lemma LengthEnds(i: nat)
    requires i < 4 || i == 28
    ensures LengthBase(i) == (if i < 4 then 3 + i else 258) && LengthExtra(i) == 0
  {}

  /** Two distance codes for each number of extra bits. */
  lemma DistanceRule(i: nat)
    requires i < 30
    ensures i < 2 ==> DistanceBase(i) == 1 + i && DistanceExtra(i) == 0
    ensures 2 <= i ==> DistanceBase(i) == 1 + (2 + i % 2) * Pow2(i / 2 - 1) && DistanceExtra(i) == i / 2 - 1
  {
    AllPowers();
    hide Pow2;
  }

  lemma CopyMeans(t: Token)
    requires t.Valid() && t.Copy?
    ensures t.Length() ==
      if t.li < 4 then 3 + t.li else if t.li == 28 then 258 else 3 + (4 + t.li % 4) * Pow2(t.li / 4 - 1) + t.extra
    ensures t.Distance() == if t.di < 2 then 1 + t.di else 1 + (2 + t.di % 2) * Pow2(t.di / 2 - 1) + t.dextra
  {
    NoExtra(t);
    LengthRule(t.li);
    DistanceRule(t.di);
    hide LengthBase, LengthExtra, DistanceBase, DistanceExtra, Pow2, Token.Valid;
  }

  lemma NoExtra(t: Token)
    requires t.Valid() && t.Copy?
    ensures t.li < 4 || t.li == 28 ==> t.extra == 0
    ensures t.di < 2 ==> t.dextra == 0
    ensures t.li < 29 && t.di < 30
  {
    SmallPowers(0);
  }

  /** What a copy adds: so many bytes, each the byte so far back. */
  lemma CopyAdds(out: seq<Byte>, t: Token)
    requires Legal(out, t) && t.Copy?
    ensures out <= Apply(out, t)
    ensures |Apply(out, t)| - |out| ==
      if t.li < 4 then 3 + t.li else if t.li == 28 then 258 else 3 + (4 + t.li % 4) * Pow2(t.li / 4 - 1) + t.extra
    ensures t.Distance() == if t.di < 2 then 1 + t.di else 1 + (2 + t.di % 2) * Pow2(t.di / 2 - 1) + t.dextra
    ensures forall i | |out| <= i < |Apply(out, t)| :: Apply(out, t)[i] == Apply(out, t)[i - t.Distance()]
  {
    CopyMeans(t);
    hide LengthBase, LengthExtra, DistanceBase, DistanceExtra, Pow2, Token.Length, Token.Distance;
  }

  /** A literal and a copy of four bytes over distance one. */
  lemma FiveLetters()
    ensures var ts := [Literal(97), Copy(1, 0, 0, 0)];
      AllLegal([], ts) && Expand([], ts) == [97, 97, 97, 97, 97]
  {
    var ts, out := [Literal(97), Copy(1, 0, 0, 0)], [97, 97, 97, 97, 97];
    FourCopied();
    hide Apply, Legal;
    assert ts[1..] == [Copy(1, 0, 0, 0)] && ts[1..][1..] == [];
    assert AllLegal(out, []) && Expand(out, []) == out;
    assert AllLegal([97], ts[1..]) && Expand([97], ts[1..]) == out;
  }

  lemma FourCopied()
    ensures Legal([], Literal(97)) && Apply([], Literal(97)) == [97]
    ensures Legal([97], Copy(1, 0, 0, 0)) && Apply([97], Copy(1, 0, 0, 0)) == [97, 97, 97, 97, 97]
  {
    SmallPowers(0);
    LengthRule(1);
    DistanceRule(0);
    hide LengthBase, LengthExtra, DistanceBase, DistanceExtra, CopyBack, Pow2;
    var r := CopyBack([97], 1, 4);
    assert r[1] == r[0] && r[2] == r[1] && r[3] == r[2] && r[4] == r[3];
    assert r == [97, 97, 97, 97, 97];
  }

  // ---- the fixed codes ----

  lemma {:induction false} FixedCount(n: nat, len: nat)
    requires n <= 288
    ensures Count(FixedLengths(), n, len) ==
      (if len == 8 then Least(n, 144) + (if n > 280 then n - 280 else 0)
       else if len == 9 then (if n > 144 then Least(n, 256) - 144 else 0)
       else if len == 7 then (if n > 256 then Least(n, 280) - 256 else 0) else 0)
  {
    if n > 0 { FixedCount(n - 1, len); }
  }

  function Least(x: nat, y: nat): nat { if x < y then x else y }

  lemma {:induction false} FixedFirst(len: nat)
    requires len <= 9
    ensures First(FixedLengths(), len) == if len == 8 then 0x30 else if len == 9 then 0x190 else 0
  {
    if len > 1 {
      FixedFirst(len - 1);
      FixedCount(288, len - 1);
    }
  }

  /** The fixed codes of literals and lengths: so many bits from such a value on. */
  lemma FixedCode(s: nat)
    requires s < 288
    ensures var L := FixedLengths();
      if s < 144 then L[s] == 8 && Code(L, s) == 0x30 + s
      else if s < 256 then L[s] == 9 && Code(L, s) == 0x190 + (s - 144)
      else if s < 280 then L[s] == 7 && Code(L, s) == s - 256
      else L[s] == 8 && Code(L, s) == 0xC0 + (s - 280)
  {
    var len := FixedLengths()[s];
    FixedFirst(len);
    FixedCount(s, len);
  }

  lemma {:induction false} FiveBits(n: nat, len: nat)
    requires n <= 32
    ensures Count(FixedDistances(), n, len) == if len == 5 then n else 0
  {
    if n > 0 { FiveBits(n - 1, len); }
  }

  lemma {:induction false} FiveFirst(len: nat)
    requires len <= 5
    ensures First(FixedDistances(), len) == 0
  {
    if len > 1 {
      FiveFirst(len - 1);
      FiveBits(32, len - 1);
    }
  }

  /** The fixed code of a distance is its number in five bits. */
  lemma FixedDistanceCode(s: nat)
    requires s < 32
    ensures FixedDistances()[s] == 5 && Code(FixedDistances(), s) == s
  {
    FiveFirst(5);
    FiveBits(s, 5);
  }

  // ---- code length codes ----

  /** First the three that repeat, then 0, then outwards from 8. */
  lemma OrderRule(i: nat)
    requires i < 19
    ensures Order(i) == if i < 3 then 16 + i else if i == 3 then 0 else if i % 2 == 0 then 6 + i / 2 else 9 - i / 2
  {}

  /** What an item adds to the lengths before it. */
  function Written(lens: seq<nat>, it: Item): seq<nat>
    requires CanExtend(lens, it)
  {
    Extend(lens, it)[|lens|..]
  }

  /** Symbol 16 repeats the last length from 3 to 6 times as two bits say, 17 writes from 3 to 10 zeros as three bits
      say, 18 from 11 to 138 as seven bits say, and any other symbol itself. */
  lemma ItemRule(lens: seq<nat>, it: Item)
    requires CanExtend(lens, it) && (it.One? || it.extra < Pow2(it.ExtraBits()))
    ensures it.Symbol() <= 18 && lens <= Extend(lens, it)
    ensures it.Symbol() < 16 ==> Written(lens, it) == [it.Symbol()]
    ensures it.Symbol() == 16 ==> lens != [] && it.extra <= 3 && Written(lens, it) == Repeat(lens[|lens| - 1], 3 + it.extra)
    ensures it.Symbol() == 17 ==> it.extra <= 7 && Written(lens, it) == Repeat(0, 3 + it.extra)
    ensures it.Symbol() == 18 ==> it.extra <= 127 && Written(lens, it) == Repeat(0, 11 + it.extra)
  {
    AllPowers();
    hide Pow2;
  }
}
