/** The GUID partition table (section 5.3 of the UEFI specification), byte by byte. */
module Gpt {
  import opened Bytes
  import opened Crc

  const LSEC := 512
  const ENTRIES_MAX := 128
  const ENTRY_SIZE := 128
  const ENTRIES_BYTES := 16384
  const ENTRIES_SECTORS := 32
  const HDR_SIZE := 92

  // ---- placing and taking bytes ----

  function Get(d: seq<Byte>, off: nat, n: nat): (r: seq<Byte>)
    requires off + n <= |d|
    ensures |r| == n
  {
    d[off..off + n]
  }

  lemma PutGet(d: seq<Byte>, off: nat, f: seq<Byte>)
    requires off + |f| <= |d|
    ensures Get(Put(d, off, f), off, |f|) == f
  {}

  lemma PutKeeps(d: seq<Byte>, off: nat, f: seq<Byte>, at: nat, n: nat)
    requires off + |f| <= |d| && at + n <= |d| && (at + n <= off || off + |f| <= at)
    ensures Get(Put(d, off, f), at, n) == Get(d, at, n)
  {}

  /** A number field of a record. */
  function Field(h: seq<Byte>, off: nat, n: nat): nat
    requires off + n <= |h|
  {
    FromLittle(Get(h, off, n))
  }

  // ---- headers: the ninety-two bytes of gpt_hdr_t ----

  const SIGNATURE: seq<Byte> := [69, 70, 73, 32, 80, 65, 82, 84]

  type Header = h: seq<Byte> | |h| == 92 witness Zeros(92)

  function HeaderSize(h: Header): nat { Field(h, 12, 4) }
  function HeaderCrc(h: Header): nat { Field(h, 16, 4) }
  function Current(h: Header): nat { Field(h, 24, 8) }
  function Backup(h: Header): nat { Field(h, 32, 8) }
  function FirstUsable(h: Header): nat { Field(h, 40, 8) }
  function LastUsable(h: Header): nat { Field(h, 48, 8) }
  function EntriesLba(h: Header): nat { Field(h, 72, 8) }
  function NumEntries(h: Header): nat { Field(h, 80, 4) }
  function EntrySize(h: Header): nat { Field(h, 84, 4) }
  function EntriesCrc(h: Header): nat { Field(h, 88, 4) }

  /** A header with the checksum of its own bytes, taken with a zero checksum. */
  function Sealed(h: Header): (r: Header)
  {
    var z := Put(h, 16, Zeros(4));
    Put(z, 16, Little(Crc32(z, 0), 4))
  }

  function WithEntries(h: Header, ents: seq<Byte>): (r: Header)
  {
    Put(h, 88, Little(Crc32(ents, 0), 4))
  }

  // ---- entries: raw, as the tool casts them ----

  predicate Unused(ents: seq<Byte>, i: nat)
    requires ENTRY_SIZE * (i + 1) <= |ents|
  {
    Get(ents, ENTRY_SIZE * i, 16) == Zeros(16)
  }

  function First(ents: seq<Byte>, i: nat): nat
    requires ENTRY_SIZE * (i + 1) <= |ents|
  {
    Field(ents, ENTRY_SIZE * i + 32, 8)
  }

  function Last(ents: seq<Byte>, i: nat): nat
    requires ENTRY_SIZE * (i + 1) <= |ents|
  {
    Field(ents, ENTRY_SIZE * i + 40, 8)
  }

  type Entries = e: seq<Byte> | |e| == 16384 witness Zeros(16384)

  /** Partitions lie in the usable range and do not meet. */
  ghost predicate Partitioned(ents: Entries, first: nat, last: nat)
  {
    && (forall i: nat :: i < ENTRIES_MAX && !Unused(ents, i) ==> first <= First(ents, i) <= Last(ents, i) <= last)
    && (forall i: nat, j: nat :: i < j < ENTRIES_MAX && !Unused(ents, i) && !Unused(ents, j) ==>
          Last(ents, i) < First(ents, j) || Last(ents, j) < First(ents, i))
  }

  /** The bytes of an entry. */
  function EntryBytes(kind: seq<Byte>, guid: seq<Byte>, first: nat, last: nat, name: seq<Byte>): (e: seq<Byte>)
    requires |kind| == 16 && |guid| == 16 && |name| == 72
    ensures |e| == 128
  {
    kind + guid + Little(first, 8) + Little(last, 8) + Zeros(8) + name
  }

  // ---- the whole disk ----

  function Total(d: seq<Byte>): nat { |d| / LSEC }

  /** A header in its own sector, filled up with zeros. */
  predicate HeaderAt(d: seq<Byte>, lba: nat, h: Header)
  {
    LSEC * (lba + 1) <= |d| && Get(d, LSEC * lba, LSEC) == h + Zeros(420)
  }

  predicate EntriesAt(d: seq<Byte>, lba: nat, ents: Entries)
  {
    LSEC * (lba + ENTRIES_SECTORS) <= |d| && Get(d, LSEC * lba, ENTRIES_BYTES) == ents
  }

  /** What gpt init writes into a header, all but the checksums; the disk's GUID is any sixteen bytes. */
  predicate Describes(h: Header, current: nat, backup: nat, first: nat, last: nat, entries: nat, ents: Entries)
  {
    && Get(h, 0, 8) == [0x45, 0x46, 0x49, 0x20, 0x50, 0x41, 0x52, 0x54] && Get(h, 8, 4) == [0, 0, 1, 0]
    && HeaderSize(h) == HDR_SIZE && NumEntries(h) == ENTRIES_MAX && EntrySize(h) == ENTRY_SIZE
    && Current(h) == current && Backup(h) == backup && FirstUsable(h) == first && LastUsable(h) == last && EntriesLba(h) == entries
    && Get(h, 88, 4) == Little(Crc32(ents, 0), 4)
    && h == Sealed(h)
  }

  /** The protective MBR: one partition of type 0xEE from sector 1 on. */
  function Mbr(total: nat): (m: seq<Byte>)
    requires total > 0
    ensures |m| == 512
  {
    var count := if total > 0xffff_ffff then 0xffff_ffff else total - 1;
    Zeros(450) + [0xee] + Zeros(3) + Little(1, 4) + Little(count, 4) + Zeros(48) + [0x55, 0xaa]
  }

  /** What a reader of the MBR finds: one partition of type 0xEE from sector 1 over the rest of the disk, as far as
      32 bits go, and the two bytes of the signature; all else is zero. */
  lemma MbrBytes(total: nat)
    requires total > 0
    ensures var m, count := Mbr(total), if total > 0xffff_ffff then 0xffff_ffff else total - 1;
      && m[450] == 0xEE && m[510] == 0x55 && m[511] == 0xAA && Field(m, 454, 4) == 1 && Field(m, 458, 4) == count
      && forall i | 0 <= i < 510 && i != 450 && !(454 <= i < 462) :: m[i] == 0
  {
    hide Little, FromLittle;
    var count: Word := if total > 0xffff_ffff then 0xffff_ffff else total - 1;
    WordFits(1);
    WordFits(count);
    var m := Mbr(total);
    assert m[454..458] == Little(1, 4) && m[458..462] == Little(count, 4);
  }

  /** A disk that holds two agreeing copies of a table. */
  ghost predicate Holds(d: seq<Byte>, hp: Header, hb: Header, ents: Entries)
  {
    var t := Total(d);
    && 35 <= t < 0x1_0000_0000_0000_0000 && Get(d, 0, LSEC) == Mbr(t)
    && Describes(hp, 1, t - 1, 34, t - 34, 2, ents) && Describes(hb, t - 1, 1, 34, t - 34, t - 33, ents)
    && HeaderAt(d, 1, hp) && HeaderAt(d, t - 1, hb)
    && EntriesAt(d, 2, ents) && EntriesAt(d, t - 33, ents)
    && Partitioned(ents, 34, t - 34)
  }

  // ---- checksums and fields ----

  lemma WordFits(w: Word)
    ensures FromLittle(Little(w, 4)) == w
  {
    assert Pow256(2) == 0x1_0000;
    assert Pow256(4) == 0x1_0000_0000;
    LittleBack(w, 4);
  }

  lemma LongFits(x: nat)
    requires x < 0x1_0000_0000_0000_0000
    ensures FromLittle(Little(x, 8)) == x
  {
    assert Pow256(2) == 0x1_0000;
    assert Pow256(4) == 0x1_0000_0000;
    assert Pow256(6) == 0x1_0000_0000_0000;
    LittleBack(x, 8);
  }

  /** A sealed header carries the checksum that a reader computes, and sealing changes nothing else. */
  lemma SealedReads(h: Header)
    ensures HeaderCrc(Sealed(h)) == Crc32(Put(Sealed(h), 16, Zeros(4)), 0)
    ensures Sealed(Sealed(h)) == Sealed(h)
    ensures forall off, n {:trigger Get(Sealed(h), off, n)} :: 0 <= off <= off + n <= 92 && (off + n <= 16 || 20 <= off) ==>
              Get(Sealed(h), off, n) == Get(h, off, n)
  {
    hide Crc32;
    hide Little;
    hide FromLittle;
    var z := Put(h, 16, Zeros(4));
    var f := Little(Crc32(z, 0), 4);
    WordFits(Crc32(z, 0));
    PutGet(z, 16, f);
    assert Put(Put(z, 16, f), 16, Zeros(4)) == z;
    forall off, n | 0 <= off <= off + n <= 92 && (off + n <= 16 || 20 <= off) ensures Get(Sealed(h), off, n) == Get(h, off, n) {
      PutKeeps(h, 16, Zeros(4), off, n);
      PutKeeps(z, 16, f, off, n);
    }
  }

  function U32(x: nat): (s: seq<Byte>)
    ensures |s| == 4
  {
    Little(x, 4)
  }

  function U64(x: nat): (s: seq<Byte>)
    ensures |s| == 8
  {
    Little(x, 8)
  }

  function Lbas(current: nat, backup: nat, first: nat, last: nat): (s: seq<Byte>)
    ensures |s| == 32
  {
    U64(current) + U64(backup) + U64(first) + U64(last)
  }

  function Counts(entries: nat): (s: seq<Byte>)
    ensures |s| == 20
  {
    U64(entries) + U32(ENTRIES_MAX) + U32(ENTRY_SIZE) + Zeros(4)
  }

  function Head(): (s: seq<Byte>)
    ensures |s| == 24
  {
    SIGNATURE + U32(0x10000) + U32(HDR_SIZE) + Zeros(8)
  }

  /** A header before its checksums. */
  function NewHeader(current: nat, backup: nat, first: nat, last: nat, guid: seq<Byte>, entries: nat): Header
    requires |guid| == 16
  {
    Head() + Lbas(current, backup, first, last) + guid + Counts(entries)
  }

  lemma NewFields(current: nat, backup: nat, first: nat, last: nat, guid: seq<Byte>, entries: nat)
    requires |guid| == 16
    ensures var h := NewHeader(current, backup, first, last, guid, entries);
      && Get(h, 0, 8) == SIGNATURE && Get(h, 8, 4) == [0, 0, 1, 0] && Get(h, 12, 4) == Little(HDR_SIZE, 4)
      && Get(h, 24, 8) == Little(current, 8) && Get(h, 32, 8) == Little(backup, 8)
      && Get(h, 40, 8) == Little(first, 8) && Get(h, 48, 8) == Little(last, 8)
      && Get(h, 72, 8) == Little(entries, 8) && Get(h, 80, 4) == Little(ENTRIES_MAX, 4) && Get(h, 84, 4) == Little(ENTRY_SIZE, 4)
  {
    hide U32;
    hide U64;
    hide Lbas;
    hide Counts;
    hide Get;
    hide Head;
    hide Little;
    var h := NewHeader(current, backup, first, last, guid, entries);
    OuterFields(Head(), Lbas(current, backup, first, last), guid, Counts(entries));
    HeadParts();
    LbaParts(current, backup, first, last);
    CountParts(entries);
    Inner(h);
  }

  lemma Inner(h: Header)
    ensures Get(h, 0, 8) == Get(Get(h, 0, 24), 0, 8) && Get(h, 8, 4) == Get(Get(h, 0, 24), 8, 4) && Get(h, 12, 4) == Get(Get(h, 0, 24), 12, 4)
    ensures Get(h, 24, 8) == Get(Get(h, 24, 32), 0, 8) && Get(h, 32, 8) == Get(Get(h, 24, 32), 8, 8)
    ensures Get(h, 40, 8) == Get(Get(h, 24, 32), 16, 8) && Get(h, 48, 8) == Get(Get(h, 24, 32), 24, 8)
    ensures Get(h, 72, 8) == Get(Get(h, 72, 20), 0, 8) && Get(h, 80, 4) == Get(Get(h, 72, 20), 8, 4)
    ensures Get(h, 84, 4) == Get(Get(h, 72, 20), 12, 4)
  {
    hide Get;
    GetGet(h, 0, 24, 0, 8);
    GetGet(h, 0, 24, 8, 4);
    GetGet(h, 0, 24, 12, 4);
    GetGet(h, 24, 32, 0, 8);
    GetGet(h, 24, 32, 8, 8);
    GetGet(h, 24, 32, 16, 8);
    GetGet(h, 24, 32, 24, 8);
    GetGet(h, 72, 20, 0, 8);
    GetGet(h, 72, 20, 8, 4);
    GetGet(h, 72, 20, 12, 4);
  }

  lemma OuterFields(a: seq<Byte>, b: seq<Byte>, g: seq<Byte>, c: seq<Byte>)
    requires |a| == 24 && |b| == 32 && |g| == 16 && |c| == 20
    ensures Get(a + b + g + c, 0, 24) == a && Get(a + b + g + c, 24, 32) == b && Get(a + b + g + c, 72, 20) == c
  {
    FourParts(a, b, g, c);
  }

  /** A part between two others. */
  lemma Between(a: seq<Byte>, b: seq<Byte>, c: seq<Byte>)
    ensures Get(a + b + c, |a|, |b|) == b
  {}

  /** Version 1.0 */
  lemma Revision()
    ensures U32(0x10000) == [0, 0, 1, 0]
  {
    assert Little(1, 2) == [1] + Little(0, 1) && Little(0, 1) == [0] + Little(0, 0);
    assert Little(0x100, 3) == [0] + Little(1, 2);
    assert Little(0x10000, 4) == [0] + Little(0x100, 3);
  }

  lemma HeadParts()
    ensures Get(Head(), 0, 8) == SIGNATURE && Get(Head(), 8, 4) == [0, 0, 1, 0] && Get(Head(), 12, 4) == Little(HDR_SIZE, 4)
  {
    Revision();
    hide Little;
    Between(SIGNATURE, U32(0x10000), U32(HDR_SIZE) + Zeros(8));
    assert SIGNATURE + U32(0x10000) + (U32(HDR_SIZE) + Zeros(8)) == Head();
    Between([], SIGNATURE, U32(0x10000) + U32(HDR_SIZE) + Zeros(8));
    Between(SIGNATURE + U32(0x10000), U32(HDR_SIZE), Zeros(8));
    assert [] + SIGNATURE + (U32(0x10000) + U32(HDR_SIZE) + Zeros(8)) == Head();
  }

  lemma LbaParts(current: nat, backup: nat, first: nat, last: nat)
    ensures var b := Lbas(current, backup, first, last);
      Get(b, 0, 8) == Little(current, 8) && Get(b, 8, 8) == Little(backup, 8) && Get(b, 16, 8) == Little(first, 8) && Get(b, 24, 8) == Little(last, 8)
  {
    hide Little;
    hide Get;
    FourParts(U64(current), U64(backup), U64(first), U64(last));
  }

  lemma CountParts(entries: nat)
    ensures var c := Counts(entries);
      Get(c, 0, 8) == Little(entries, 8) && Get(c, 8, 4) == Little(ENTRIES_MAX, 4) && Get(c, 12, 4) == Little(ENTRY_SIZE, 4)
  {
    hide Little;
    hide Get;
    FourParts(U64(entries), U32(ENTRIES_MAX), U32(ENTRY_SIZE), Zeros(4));
  }

  lemma FourParts(a: seq<Byte>, b: seq<Byte>, c: seq<Byte>, d: seq<Byte>)
    ensures var s := a + b + c + d;
      && Get(s, 0, |a|) == a && Get(s, |a|, |b|) == b && Get(s, |a| + |b|, |c|) == c && Get(s, |a| + |b| + |c|, |d|) == d
  {
    var s := a + b + c + d;
    assert s == [] + a + (b + c + d) && s == a + b + (c + d) && s == (a + b) + c + d && s == (a + b + c) + d + [];
    Between([], a, b + c + d);
    Between(a, b, c + d);
    Between(a + b, c, d);
    Between(a + b + c, d, []);
  }

  /** A part of a part. */
  lemma GetGet(d: seq<Byte>, off: nat, n: nat, i: nat, m: nat)
    requires off + n <= |d| && i + m <= n
    ensures Get(d, off + i, m) == Get(Get(d, off, n), i, m)
  {
    var x, y, z := d[off..off + n], d[off..off + n][i..i + m], d[off + i..off + i + m];
    assert |y| == |z|;
    forall k | 0 <= k < |y| ensures y[k] == z[k] { assert x[i + k] == d[off + (i + k)]; }
  }

  /** With its checksums it describes what it was made for. */
  lemma NewDescribes(current: nat, backup: nat, first: nat, last: nat, guid: seq<Byte>, entries: nat, ents: Entries)
    requires |guid| == 16
    requires current < 0x1_0000_0000_0000_0000 && backup < 0x1_0000_0000_0000_0000 && first < 0x1_0000_0000_0000_0000
    requires last < 0x1_0000_0000_0000_0000 && entries < 0x1_0000_0000_0000_0000
    ensures Describes(Sealed(WithEntries(NewHeader(current, backup, first, last, guid, entries), ents)), current, backup, first, last, entries, ents)
  {
    hide Little;
    hide FromLittle;
    hide Crc32;
    hide NewHeader;
    hide Put;
    hide Get;
    hide Sealed;
    NewFields(current, backup, first, last, guid, entries);
    var h := NewHeader(current, backup, first, last, guid, entries);
    var w := WithEntries(h, ents);
    var crc := Little(Crc32(ents, 0), 4);
    PutGet(h, 88, crc);
    SealedReads(w);
    PutKeeps(h, 88, crc, 0, 8);
    PutKeeps(h, 88, crc, 8, 4);
    PutKeeps(h, 88, crc, 12, 4);
    PutKeeps(h, 88, crc, 24, 8);
    PutKeeps(h, 88, crc, 32, 8);
    PutKeeps(h, 88, crc, 40, 8);
    PutKeeps(h, 88, crc, 48, 8);
    PutKeeps(h, 88, crc, 72, 8);
    PutKeeps(h, 88, crc, 80, 4);
    PutKeeps(h, 88, crc, 84, 4);
    WordFits(HDR_SIZE);
    WordFits(ENTRIES_MAX);
    WordFits(ENTRY_SIZE);
    LongFits(current);
    LongFits(backup);
    LongFits(first);
    LongFits(last);
    LongFits(entries);
  }

  /** New entries: the header is only sealed again. */
  lemma Redescribes(h: Header, current: nat, backup: nat, first: nat, last: nat, entries: nat, was: Entries, ents: Entries)
    requires Describes(h, current, backup, first, last, entries, was)
    ensures Describes(Sealed(WithEntries(h, ents)), current, backup, first, last, entries, ents)
  {
    hide Little;
    hide FromLittle;
    hide Crc32;
    hide Put;
    hide Get;
    hide Sealed;
    var w := WithEntries(h, ents);
    var crc := Little(Crc32(ents, 0), 4);
    PutGet(h, 88, crc);
    SealedReads(w);
    PutKeeps(h, 88, crc, 0, 8);
    PutKeeps(h, 88, crc, 8, 4);
    PutKeeps(h, 88, crc, 12, 4);
    PutKeeps(h, 88, crc, 24, 8);
    PutKeeps(h, 88, crc, 32, 8);
    PutKeeps(h, 88, crc, 40, 8);
    PutKeeps(h, 88, crc, 48, 8);
    PutKeeps(h, 88, crc, 72, 8);
    PutKeeps(h, 88, crc, 80, 4);
    PutKeeps(h, 88, crc, 84, 4);
  }
}
