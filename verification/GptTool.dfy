/** gpt init and gpt add, on a disk of bytes. */
module GptTool {
  import opened Bytes
  import opened Crc
  import opened Gpt

  /** A device that reads back what was written. */
  class Disk {
    var data: seq<Byte>

    constructor (data: seq<Byte>)
      ensures this.data == data
    {
      this.data := data;
    }

    method PRead(off: nat, len: nat) returns (ok: bool, s: seq<Byte>)
      ensures ok <==> off + len <= |data|
      ensures ok ==> s == Get(data, off, len)
    {
      if off + len > |data| { return false, []; }
      return true, data[off..off + len];
    }

    method PWrite(off: nat, s: seq<Byte>) returns (ok: bool)
      modifies this
      ensures ok <==> off + |s| <= |old(data)|
      ensures data == if ok then Put(old(data), off, s) else old(data)
    {
      if off + |s| > |data| { return false; }
      data := data[..off] + s + data[off + |s|..];
      ok := true;
    }
  }

  // ---- reading ----

  /** The checksum of a header of n bytes, taken with a zero checksum. */
  function Checksum(d: seq<Byte>, lba: nat, n: nat): Word
    requires LSEC * lba + n <= |d| && n >= 20
  {
    Crc32(Put(Get(d, LSEC * lba, n), 16, Zeros(4)), 0)
  }

  predicate Sized(h: Header)
  {
    HeaderSize(h) >= 92 && EntrySize(h) >= ENTRY_SIZE && 0 < NumEntries(h) <= 4096
  }

  predicate Inside(h: Header, total: nat)
  {
    Current(h) < total && Backup(h) < total && LastUsable(h) < total && EntriesLba(h) < total
  }

  /** gpt_read_header accepts the header at a sector of a disk of so many sectors, unless that is zero. */
  predicate Readable(d: seq<Byte>, lba: nat, total: nat)
  {
    && LSEC * (lba + 1) <= |d|
    && var h: Header := Get(d, LSEC * lba, 92);
       && Get(h, 0, 8) == SIGNATURE && Sized(h) && (total > 0 ==> Inside(h, total))
       && LSEC * lba + HeaderSize(h) <= |d|
       && Checksum(d, lba, HeaderSize(h)) == HeaderCrc(h)
  }

  method ReadHeader(disk: Disk, lba: nat, total: nat) returns (ok: bool, h: Header)
    ensures ok <==> Readable(disk.data, lba, total)
    ensures ok ==> h == Get(disk.data, LSEC * lba, 92)
  {
    hide Crc32;
    hide FromLittle;
    h := Zeros(92);
    var got, sec := disk.PRead(LSEC * lba, LSEC);
    if !got { return false, h; }
    assert sec[..92] == Get(disk.data, LSEC * lba, 92);
    h := sec[..92];
    if sec[..8] != SIGNATURE { assert Get(h, 0, 8) == sec[..8]; return false, h; }
    assert Get(h, 0, 8) == sec[..8];
    if HeaderSize(h) < 92 || EntrySize(h) < ENTRY_SIZE || NumEntries(h) == 0 || NumEntries(h) > 4096 { return false, h; }
    if total > 0 {
      if Current(h) >= total || Backup(h) >= total { return false, h; }
      if LastUsable(h) >= total || EntriesLba(h) >= total { return false, h; }
    }
    var buf := sec;
    if HeaderSize(h) <= LSEC {
      buf := sec[..HeaderSize(h)];
      assert buf == Get(disk.data, LSEC * lba, HeaderSize(h));
    } else {
      got, buf := disk.PRead(LSEC * lba, HeaderSize(h));
      if !got { return false, h; }
    }
    buf := Put(buf, 16, Zeros(4));
    ok := Crc32(buf, 0) == HeaderCrc(h);
  }

  predicate EntriesReadable(d: seq<Byte>, h: Header)
  {
    var n := NumEntries(h) * EntrySize(h);
    0 < n <= 0x80_0000 && LSEC * EntriesLba(h) + n <= |d| && Crc32(Get(d, LSEC * EntriesLba(h), n), 0) == EntriesCrc(h)
  }

  method ReadEntries(disk: Disk, h: Header) returns (ok: bool, ents: seq<Byte>)
    ensures ok <==> EntriesReadable(disk.data, h)
    ensures ok ==> LSEC * EntriesLba(h) + NumEntries(h) * EntrySize(h) <= |disk.data|
    ensures ok ==> ents == Get(disk.data, LSEC * EntriesLba(h), NumEntries(h) * EntrySize(h))
  {
    hide Crc32;
    hide FromLittle;
    var bytes := NumEntries(h) * EntrySize(h);
    ents := [];
    if bytes == 0 || bytes > 0x80_0000 { return false, ents; }
    ok, ents := disk.PRead(LSEC * EntriesLba(h), bytes);
    if !ok { return false, ents; }
    ok := Crc32(ents, 0) == EntriesCrc(h);
  }

  /** Both readers accept both copies of a table. */
  lemma CopiesReadable(d: seq<Byte>, hp: Header, hb: Header, ents: Entries)
    requires Holds(d, hp, hb, ents)
    ensures Readable(d, 1, Total(d)) && Get(d, LSEC, 92) == hp && EntriesReadable(d, hp)
    ensures Readable(d, Total(d) - 1, Total(d)) && Get(d, LSEC * (Total(d) - 1), 92) == hb && EntriesReadable(d, hb)
  {
    hide Crc32;
    hide FromLittle;
    hide Partitioned;
    hide Sealed;
    var t := Total(d);
    CopyReadable(d, 1, hp, 1, t - 1, 34, t - 34, 2, ents);
    CopyReadable(d, t - 1, hb, t - 1, 1, 34, t - 34, t - 33, ents);
  }

  lemma CopyReadable(d: seq<Byte>, lba: nat, h: Header, current: nat, backup: nat, first: nat, last: nat, entries: nat, ents: Entries)
    requires Describes(h, current, backup, first, last, entries, ents) && HeaderAt(d, lba, h) && EntriesAt(d, entries, ents)
    requires current < Total(d) && backup < Total(d) && last < Total(d) && entries < Total(d)
    ensures Readable(d, lba, Total(d)) && Get(d, LSEC * lba, 92) == h && EntriesReadable(d, h)
  {
    hide Crc32;
    hide FromLittle;
    hide Sealed;
    SealedReads(h);
    WordFits(Crc32(ents, 0));
    var sec := Get(d, LSEC * lba, LSEC);
    assert sec[..92] == h;
    assert Get(d, LSEC * lba, 92) == sec[..92];
  }

  // ---- writing ----

  /** Two writes apart from each other, or of zeros over zeros. */
  lemma ZerosStay(d: seq<Byte>, off: nat, m: nat, at: nat, n: nat)
    requires off + m <= |d| && at + n <= |d| && Get(d, at, n) == Zeros(n)
    ensures Get(Put(d, off, Zeros(m)), at, n) == Zeros(n)
  {
    var e := Put(d, off, Zeros(m));
    forall k | 0 <= k < n ensures Get(e, at, n)[k] == 0 { assert Get(d, at, n)[k] == d[at + k]; }
  }

  /** gpt_write_primary and gpt_write_backup: the entries, then the header's sector. */
  function Written(d: seq<Byte>, h: Header, ents: Entries): (r: seq<Byte>)
    requires LSEC * EntriesLba(h) + ENTRIES_BYTES <= |d| && LSEC * (Current(h) + 1) <= |d|
    ensures |r| == |d|
  {
    Put(Put(d, LSEC * EntriesLba(h), ents), LSEC * Current(h), h + Zeros(420))
  }

  method WriteCopy(disk: Disk, h: Header, ents: Entries) returns (ok: bool)
    requires NumEntries(h) * EntrySize(h) == ENTRIES_BYTES
    modifies disk
    ensures ok <==> LSEC * EntriesLba(h) + ENTRIES_BYTES <= |old(disk.data)| && LSEC * (Current(h) + 1) <= |old(disk.data)|
    ensures ok ==> disk.data == Written(old(disk.data), h, ents)
  {
    hide FromLittle;
    hide Put;
    ok := disk.PWrite(LSEC * EntriesLba(h), ents);
    if !ok { return; }
    ok := disk.PWrite(LSEC * Current(h), h + Zeros(420));
  }

  /** A copy that has been written is there, and so is what stands apart from it. */
  lemma WrittenAt(d: seq<Byte>, h: Header, ents: Entries, entries: nat, current: nat)
    requires entries == EntriesLba(h) && current == Current(h) && (current < entries || entries + ENTRIES_SECTORS <= current)
    requires LSEC * (entries + ENTRIES_SECTORS) <= |d| && LSEC * (current + 1) <= |d|
    ensures EntriesAt(Written(d, h, ents), entries, ents) && HeaderAt(Written(d, h, ents), current, h)
    ensures forall at: nat, n: nat {:trigger Get(Written(d, h, ents), at, n)} ::
              at + n <= |d| && Apart(at, n, LSEC * entries, ENTRIES_BYTES) && Apart(at, n, LSEC * current, LSEC)
              ==> Get(Written(d, h, ents), at, n) == Get(d, at, n)
  {
    hide Get;
    hide Put;
    hide FromLittle;
    var e, sec := Put(d, LSEC * entries, ents), h + Zeros(420);
    PutGet(d, LSEC * entries, ents);
    PutGet(e, LSEC * current, sec);
    PutKeeps(e, LSEC * current, sec, LSEC * entries, ENTRIES_BYTES);
    forall at: nat, n: nat | at + n <= |d| && Apart(at, n, LSEC * entries, ENTRIES_BYTES) && Apart(at, n, LSEC * current, LSEC)
      ensures Get(Written(d, h, ents), at, n) == Get(d, at, n)
    {
      PutKeeps(d, LSEC * entries, ents, at, n);
      PutKeeps(e, LSEC * current, sec, at, n);
    }
  }

  predicate Apart(at: nat, n: nat, off: nat, m: nat) { at + n <= off || off + m <= at }

  // ---- gpt init ----

  /** A loop of gpt init that clears sectors. */
  method Clear(disk: Disk, from: nat, to: nat)
    requires from <= to && LSEC * to <= |disk.data|
    modifies disk
    ensures |disk.data| == |old(disk.data)|
    ensures forall at: nat, n: nat {:trigger Get(disk.data, at, n)} ::
              at + n <= |disk.data| && Apart(at, n, LSEC * from, LSEC * (to - from)) ==> Get(disk.data, at, n) == Get(old(disk.data), at, n)
  {
    hide Get;
    hide Put;
    var l := from;
    while l < to
      invariant from <= l <= to && |disk.data| == |old(disk.data)|
      invariant forall at: nat, n: nat {:trigger Get(disk.data, at, n)} ::
              at + n <= |disk.data| && Apart(at, n, LSEC * from, LSEC * (to - from)) ==> Get(disk.data, at, n) == Get(old(disk.data), at, n)
    {
      ghost var d := disk.data;
      var _ := disk.PWrite(LSEC * l, Zeros(LSEC));
      forall at: nat, n: nat | at + n <= |d| && Apart(at, n, LSEC * from, LSEC * (to - from)) ensures Get(disk.data, at, n) == Get(d, at, n) {
        PutKeeps(d, LSEC * l, Zeros(LSEC), at, n);
      }
      l := l + 1;
    }
  }

  /** The two headers of an empty table. */
  function Primary(t: nat, guid: seq<Byte>): Header
    requires |guid| == 16 && t >= 35
  {
    Sealed(WithEntries(NewHeader(1, t - 1, 34, t - 34, guid, 2), Zeros(ENTRIES_BYTES)))
  }

  function Secondary(t: nat, guid: seq<Byte>): Header
    requires |guid| == 16 && t >= 35
  {
    Sealed(WithEntries(NewHeader(t - 1, 1, 34, t - 34, guid, t - 33), Zeros(ENTRIES_BYTES)))
  }

  /** What stands between the tables. */
  function Middle(d: seq<Byte>): seq<Byte>
    requires Total(d) >= 67
  {
    Get(d, LSEC * 34, LSEC * (Total(d) - 67))
  }

  /** What gpt init writes, after the sectors have been cleared. */
  lemma InitHolds(d: seq<Byte>, guid: seq<Byte>)
    requires |guid| == 16 && 35 <= Total(d) && |d| < 0x1_0000_0000_0000_0000
    ensures var t := Total(d); var z: Entries := Zeros(ENTRIES_BYTES); var hp, hb := Primary(t, guid), Secondary(t, guid);
      && Current(hp) == 1 && EntriesLba(hp) == 2 && Current(hb) == t - 1 && EntriesLba(hb) == t - 33
      && NumEntries(hp) * EntrySize(hp) == ENTRIES_BYTES == NumEntries(hb) * EntrySize(hb)
      && var r := Written(Written(Put(d, 0, Mbr(t)), hp, z), hb, z);
         Holds(r, hp, hb, z) && (t >= 67 ==> Middle(r) == Middle(d))
  {
    hide NewHeader;
    hide Describes;
    hide Put;
    hide Get;
    hide Sealed;
    hide WithEntries;
    hide Mbr;
    hide Written;
    hide FromLittle;
    hide Zeros;
    var t := Total(d);
    var z: Entries := Zeros(ENTRIES_BYTES);
    var hp, hb := Primary(t, guid), Secondary(t, guid);
    NewDescribes(1, t - 1, 34, t - 34, guid, 2, z);
    NewDescribes(t - 1, 1, 34, t - 34, guid, t - 33, z);
    DescribesPlaces(hp, 1, t - 1, 34, t - 34, 2, z);
    DescribesPlaces(hb, t - 1, 1, 34, t - 34, t - 33, z);
    var a := Put(d, 0, Mbr(t));
    PutGet(d, 0, Mbr(t));
    var b := Written(a, hp, z);
    WrittenAt(a, hp, z, 2, 1);
    var r := Written(b, hb, z);
    WrittenAt(b, hb, z, t - 33, t - 1);
    assert Get(b, 0, LSEC) == Mbr(t) && Get(r, 0, LSEC) == Mbr(t);
    assert HeaderAt(r, 1, hp);
    EntriesStay(b, hb, 2, t - 33, t - 1);
    assert EntriesAt(r, 2, z);
    NoPartitions(34, t - 34);
    if t >= 67 {
      PutKeeps(d, 0, Mbr(t), LSEC * 34, LSEC * (t - 67));
      assert Get(b, LSEC * 34, LSEC * (t - 67)) == Get(a, LSEC * 34, LSEC * (t - 67));
      assert Get(r, LSEC * 34, LSEC * (t - 67)) == Get(b, LSEC * 34, LSEC * (t - 67));
    }
  }

  lemma DescribesPlaces(h: Header, current: nat, backup: nat, first: nat, last: nat, entries: nat, ents: Entries)
    requires Describes(h, current, backup, first, last, entries, ents)
    ensures Current(h) == current && Backup(h) == backup && FirstUsable(h) == first && LastUsable(h) == last && EntriesLba(h) == entries
    ensures NumEntries(h) == ENTRIES_MAX && EntrySize(h) == ENTRY_SIZE && HeaderSize(h) == HDR_SIZE
    ensures NumEntries(h) * EntrySize(h) == ENTRIES_BYTES
  {
    hide FromLittle;
    hide Get;
    hide Sealed;
  }

  /** Entries of zeros survive another copy of zeros, even one that overlaps them. */
  lemma EntriesStay(d: seq<Byte>, h: Header, lba: nat, entries: nat, current: nat)
    requires entries == EntriesLba(h) && current == Current(h) && LSEC * (entries + ENTRIES_SECTORS) <= |d| && LSEC * (current + 1) <= |d|
    requires EntriesAt(d, lba, Zeros(ENTRIES_BYTES)) && (current < lba || lba + ENTRIES_SECTORS <= current)
    ensures EntriesAt(Written(d, h, Zeros(ENTRIES_BYTES)), lba, Zeros(ENTRIES_BYTES))
  {
    hide Put;
    hide Get;
    hide Zeros;
    hide FromLittle;
    var e := Put(d, LSEC * entries, Zeros(ENTRIES_BYTES));
    ZerosStay(d, LSEC * entries, ENTRIES_BYTES, LSEC * lba, ENTRIES_BYTES);
    PutKeeps(e, LSEC * current, h + Zeros(420), LSEC * lba, ENTRIES_BYTES);
  }

  lemma NoPartitions(first: nat, last: nat)
    ensures Partitioned(Zeros(ENTRIES_BYTES), first, last)
  {
    forall i: nat | i < ENTRIES_MAX ensures Unused(Zeros(ENTRIES_BYTES), i) {}
  }

  /** gpt init, with a GUID that may be anything: refuses only a disk of fewer than 35 sectors. */
  method Init(disk: Disk, guid: seq<Byte>) returns (ok: bool)
    requires |guid| == 16 && |disk.data| < 0x1_0000_0000_0000_0000
    modifies disk
    ensures ok <==> |old(disk.data)| >= LSEC * 35
    ensures |disk.data| == |old(disk.data)| && (!ok ==> disk.data == old(disk.data))
    ensures ok ==> Holds(disk.data, Primary(Total(disk.data), guid), Secondary(Total(disk.data), guid), Zeros(ENTRIES_BYTES))
    ensures Total(disk.data) >= 67 ==> Middle(disk.data) == Middle(old(disk.data))
  {
    hide Get;
    hide Put;
    hide Holds;
    hide Written;
    hide NewHeader;
    hide Sealed;
    hide WithEntries;
    hide FromLittle;
    hide Mbr;
    hide Zeros;
    if |disk.data| < LSEC * (2 + ENTRIES_SECTORS + 1) { return false; }
    var t := |disk.data| / LSEC;
    Clear(disk, 2, 2 + ENTRIES_SECTORS);
    Clear(disk, t - 33, t - 33 + ENTRIES_SECTORS);
    Clear(disk, 1, 2);
    Clear(disk, t - 1, t);
    InitHolds(disk.data, guid);
    var z: Entries := Zeros(ENTRIES_BYTES);
    ok := disk.PWrite(0, Mbr(t));
    ok := WriteCopy(disk, Primary(t, guid), z);
    ok := WriteCopy(disk, Secondary(t, guid), z);
  }
}
