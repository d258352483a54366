/** gpt add: one more partition, in both copies of the table. */
module GptAdd {
  import opened Bytes
  import opened Crc
  import opened Gpt
  import opened GptTool

  // ---- what is asked for ----

  /** A partition to add: its type, none when the name of the type is unknown, and its range. */
  datatype Asked = Asked(kind: seq<Byte>, guid: seq<Byte>, first: nat, last: nat, name: seq<Byte>)
  {
    predicate Valid()
    {
      && (kind == [] || (|kind| == 16 && kind != Zeros(16))) && |guid| == 16 && |name| == 72
      && first < 0x1_0000_0000_0000_0000 && last < 0x1_0000_0000_0000_0000
    }

    /** The range within the usable one. */
    function From(low: nat): nat { if first < low then low else first }

    function To(high: nat): nat { if last > high then high else last }
  }

  predicate Clashes(ents: Entries, i: nat, first: nat, last: nat)
    requires i < ENTRIES_MAX
  {
    !Unused(ents, i) && first <= Last(ents, i) && last >= First(ents, i)
  }

  /** The first free entry from i on, or the number of entries. */
  function FreeSlot(ents: Entries, i: nat): (s: nat)
    requires i <= ENTRIES_MAX
    ensures i <= s <= ENTRIES_MAX && (s < ENTRIES_MAX ==> Unused(ents, s))
    ensures forall k: nat :: i <= k < s ==> !Unused(ents, k)
    decreases ENTRIES_MAX - i
  {
    if i == ENTRIES_MAX || Unused(ents, i) then i else FreeSlot(ents, i + 1)
  }

  /** gpt add goes through: the type is known, the range is not empty, clear of all partitions, and an entry is free. */
  ghost predicate Addable(ents: Entries, low: nat, high: nat, a: Asked)
  {
    && a.kind != [] && a.first <= a.last && a.From(low) <= a.To(high)
    && (forall i: nat :: i < ENTRIES_MAX ==> !Clashes(ents, i, a.From(low), a.To(high)))
    && FreeSlot(ents, 0) < ENTRIES_MAX
  }

  /** The entries with the partition in the first free one. */
  function Added(ents: Entries, low: nat, high: nat, a: Asked): (r: Entries)
    requires a.Valid() && a.kind != [] && FreeSlot(ents, 0) < ENTRIES_MAX
  {
    Put(ents, ENTRY_SIZE * FreeSlot(ents, 0), EntryBytes(a.kind, a.guid, a.From(low), a.To(high), a.name))
  }

  // ---- one entry changes ----

  lemma EntryFields(kind: seq<Byte>, guid: seq<Byte>, first: nat, last: nat, name: seq<Byte>)
    requires |kind| == 16 && |guid| == 16 && |name| == 72 && first < 0x1_0000_0000_0000_0000 && last < 0x1_0000_0000_0000_0000
    ensures var e := EntryBytes(kind, guid, first, last, name); Get(e, 0, 16) == kind && Field(e, 32, 8) == first && Field(e, 40, 8) == last
    ensures var e := EntryBytes(kind, guid, first, last, name); Get(e, 16, 16) == guid && Get(e, 48, 8) == Zeros(8) && Get(e, 56, 72) == name
  {
    hide Little;
    hide FromLittle;
    var a, b := Little(first, 8), Little(last, 8);
    LongFits(first);
    LongFits(last);
    var e := EntryBytes(kind, guid, first, last, name);
    FourParts(kind, guid, a, b + Zeros(8) + name);
    assert e == kind + guid + a + (b + Zeros(8) + name);
    FourParts(kind + guid, a, b, Zeros(8) + name);
    assert e == (kind + guid) + a + b + (Zeros(8) + name);
    FourParts(kind + guid + a, b, Zeros(8), name);
    assert e == (kind + guid + a) + b + Zeros(8) + name;
  }

  lemma SlotChanged(ents: Entries, s: nat, e: seq<Byte>)
    requires s < ENTRIES_MAX && |e| == ENTRY_SIZE
    ensures var r: Entries := Put(ents, ENTRY_SIZE * s, e);
      && (Unused(r, s) <==> Get(e, 0, 16) == Zeros(16)) && First(r, s) == Field(e, 32, 8) && Last(r, s) == Field(e, 40, 8)
      && forall i: nat :: i < ENTRIES_MAX && i != s ==>
           (Unused(r, i) <==> Unused(ents, i)) && First(r, i) == First(ents, i) && Last(r, i) == Last(ents, i)
  {
    hide Put;
    hide Get;
    hide FromLittle;
    hide Zeros;
    var at := ENTRY_SIZE * s;
    var r: Entries := Put(ents, at, e);
    PutGet(ents, at, e);
    GetGet(r, at, ENTRY_SIZE, 0, 16);
    GetGet(r, at, ENTRY_SIZE, 32, 8);
    GetGet(r, at, ENTRY_SIZE, 40, 8);
    forall i: nat | i < ENTRIES_MAX && i != s
      ensures (Unused(r, i) <==> Unused(ents, i)) && First(r, i) == First(ents, i) && Last(r, i) == Last(ents, i)
    {
      PutKeeps(ents, at, e, ENTRY_SIZE * i, 16);
      PutKeeps(ents, at, e, ENTRY_SIZE * i + 32, 8);
      PutKeeps(ents, at, e, ENTRY_SIZE * i + 40, 8);
    }
  }

  /** The partitions afterwards: those before and the new one, still apart and in range. */
  lemma AddedPartitions(ents: Entries, low: nat, high: nat, a: Asked)
    requires a.Valid() && Addable(ents, low, high, a) && Partitioned(ents, low, high) && high < 0x1_0000_0000_0000_0000
    ensures var r, s := Added(ents, low, high, a), FreeSlot(ents, 0);
      && Partitioned(r, low, high)
      && !Unused(r, s) && First(r, s) == a.From(low) && Last(r, s) == a.To(high)
      && forall i: nat :: i < ENTRIES_MAX && i != s ==>
           (Unused(r, i) <==> Unused(ents, i)) && First(r, i) == First(ents, i) && Last(r, i) == Last(ents, i)
  {
    hide Unused;
    hide First;
    hide Last;
    hide Put;
    hide EntryBytes;
    hide FreeSlot;
    var s := FreeSlot(ents, 0);
    EntryFields(a.kind, a.guid, a.From(low), a.To(high), a.name);
    SlotChanged(ents, s, EntryBytes(a.kind, a.guid, a.From(low), a.To(high), a.name));
    var r := Added(ents, low, high, a);
    forall i: nat | i < ENTRIES_MAX && i != s && !Unused(r, i)
      ensures Last(r, i) < First(r, s) || Last(r, s) < First(r, i)
    {
      assert !Clashes(ents, i, a.From(low), a.To(high));
    }
  }

  // ---- the disk ----

  /** Two headers, the backup entries, and primary entries that either agree with them or fail their checksum. */
  ghost predicate Recoverable(d: seq<Byte>, hp: Header, hb: Header, ents: Entries)
  {
    var t := Total(d);
    && 35 <= t && |d| < 0x1_0000_0000_0000_0000 && Get(d, 0, LSEC) == Mbr(t)
    && Describes(hp, 1, t - 1, 34, t - 34, 2, ents) && Describes(hb, t - 1, 1, 34, t - 34, t - 33, ents)
    && HeaderAt(d, 1, hp) && HeaderAt(d, t - 1, hb) && EntriesAt(d, t - 33, ents)
    && (EntriesReadable(d, hp) ==> EntriesAt(d, 2, ents))
    && Partitioned(ents, 34, t - 34)
  }

  /** A header that is accepted has the sizes that the tool writes. */
  predicate OwnHeader(d: seq<Byte>, lba: nat)
  {
    Readable(d, lba, Total(d)) ==>
      var h: Header := Get(d, LSEC * lba, 92);
      HeaderSize(h) == HDR_SIZE && NumEntries(h) == ENTRIES_MAX && EntrySize(h) == ENTRY_SIZE
  }

  /** The two headers that gpt add looks at are the tool's own. */
  predicate OwnFormat(d: seq<Byte>)
  {
    OwnHeader(d, 1) && (Readable(d, 1, Total(d)) ==> var h: Header := Get(d, LSEC, 92); OwnHeader(d, Backup(h)))
  }

  function Resealed(h: Header, ents: Entries): Header { Sealed(WithEntries(h, ents)) }

  lemma HeaderReadable(d: seq<Byte>, lba: nat, h: Header, current: nat, backup: nat, first: nat, last: nat, entries: nat, ents: Entries)
    requires Describes(h, current, backup, first, last, entries, ents) && HeaderAt(d, lba, h)
    requires current < Total(d) && backup < Total(d) && last < Total(d) && entries < Total(d)
    ensures Readable(d, lba, Total(d)) && Get(d, LSEC * lba, 92) == h
  {
    hide Crc32;
    hide FromLittle;
    hide Sealed;
    SealedReads(h);
    var sec := Get(d, LSEC * lba, LSEC);
    assert sec[..92] == h;
    assert Get(d, LSEC * lba, 92) == sec[..92];
  }

  /** What gpt add reads from a recoverable disk: the headers, and the entries from either copy. */
  lemma WhatIsRead(d: seq<Byte>, hp: Header, hb: Header, ents: Entries)
    requires Recoverable(d, hp, hb, ents)
    ensures var t := Total(d);
      && Readable(d, 1, t) && Get(d, LSEC, 92) == hp && Backup(hp) == t - 1
      && Readable(d, t - 1, t) && Get(d, LSEC * (t - 1), 92) == hb
      && Current(hp) == 1 && EntriesLba(hp) == 2 && Current(hb) == t - 1 && EntriesLba(hb) == t - 33
      && FirstUsable(hp) == 34 && LastUsable(hp) == t - 34
      && NumEntries(hp) * EntrySize(hp) == ENTRIES_BYTES && NumEntries(hb) * EntrySize(hb) == ENTRIES_BYTES
  {
    hide Crc32;
    hide FromLittle;
    hide Partitioned;
    hide Describes;
    hide Get;
    hide Readable;
    hide Mbr;
    hide EntriesReadable;
    var t := Total(d);
    HeaderReadable(d, 1, hp, 1, t - 1, 34, t - 34, 2, ents);
    HeaderReadable(d, t - 1, hb, t - 1, 1, 34, t - 34, t - 33, ents);
    DescribesPlaces(hp, 1, t - 1, 34, t - 34, 2, ents);
    DescribesPlaces(hb, t - 1, 1, 34, t - 34, t - 33, ents);
  }

  /** After both copies have been written the disk holds the new table; the rest is as it was. */
  lemma BothWritten(d: seq<Byte>, hp: Header, hb: Header, ents: Entries, now: Entries)
    requires Recoverable(d, hp, hb, ents) && Total(d) >= 67 && Partitioned(now, 34, Total(d) - 34)
    ensures var t := Total(d); var p, b := Resealed(hp, now), Resealed(hb, now);
      && Current(p) == 1 && EntriesLba(p) == 2 && Current(b) == t - 1 && EntriesLba(b) == t - 33
      && NumEntries(p) * EntrySize(p) == ENTRIES_BYTES && NumEntries(b) * EntrySize(b) == ENTRIES_BYTES
      && var r := Written(Written(d, p, now), b, now);
         Holds(r, p, b, now) && Middle(r) == Middle(d)
  {
    hide Describes;
    hide Put;
    hide Get;
    hide Sealed;
    hide WithEntries;
    hide Mbr;
    hide Written;
    hide FromLittle;
    hide Partitioned;
    hide EntriesReadable;
    var t := Total(d);
    var p, b := Resealed(hp, now), Resealed(hb, now);
    Redescribes(hp, 1, t - 1, 34, t - 34, 2, ents, now);
    Redescribes(hb, t - 1, 1, 34, t - 34, t - 33, ents, now);
    DescribesPlaces(p, 1, t - 1, 34, t - 34, 2, now);
    DescribesPlaces(b, t - 1, 1, 34, t - 34, t - 33, now);
    var m := Written(d, p, now);
    WrittenAt(d, p, now, 2, 1);
    var r := Written(m, b, now);
    WrittenAt(m, b, now, t - 33, t - 1);
    assert Get(m, 0, LSEC) == Get(d, 0, LSEC) && Get(r, 0, LSEC) == Get(m, 0, LSEC);
    assert Get(r, LSEC, LSEC) == Get(m, LSEC, LSEC);
    assert Get(r, LSEC * 2, ENTRIES_BYTES) == Get(m, LSEC * 2, ENTRIES_BYTES);
    assert Get(m, LSEC * 34, LSEC * (t - 67)) == Get(d, LSEC * 34, LSEC * (t - 67));
    assert Get(r, LSEC * 34, LSEC * (t - 67)) == Get(m, LSEC * 34, LSEC * (t - 67));
  }

  /** The search for an overlapping partition. */
  method AnyClash(ents: Entries, first: nat, last: nat) returns (clash: bool)
    ensures clash <==> exists i: nat :: i < ENTRIES_MAX && Clashes(ents, i, first, last)
  {
    hide First;
    hide Last;
    hide Unused;
    var i: nat := 0;
    while i < ENTRIES_MAX
      invariant i <= ENTRIES_MAX && forall k: nat :: k < i ==> !Clashes(ents, k, first, last)
    {
      if !Unused(ents, i) && first <= Last(ents, i) && last >= First(ents, i) {
        assert Clashes(ents, i, first, last);
        return true;
      }
      i := i + 1;
    }
    clash := false;
  }

  method FindSlot(ents: Entries) returns (s: nat)
    ensures s == FreeSlot(ents, 0)
  {
    hide Unused;
    s := 0;
    while s < ENTRIES_MAX && !Unused(ents, s)
      invariant s <= ENTRIES_MAX && FreeSlot(ents, s) == FreeSlot(ents, 0)
    {
      s := s + 1;
    }
  }

  /** Sealing a header again leaves its places and sizes. */
  lemma ResealKeeps(h: Header, ents: Entries)
    ensures var r := Resealed(h, ents);
      Current(r) == Current(h) && EntriesLba(r) == EntriesLba(h) && NumEntries(r) == NumEntries(h) && EntrySize(r) == EntrySize(h)
  {
    hide Put;
    hide Get;
    hide Sealed;
    hide Little;
    hide FromLittle;
    hide Crc32;
    var crc := Little(Crc32(ents, 0), 4);
    SealedReads(WithEntries(h, ents));
    PutKeeps(h, 88, crc, 24, 8);
    PutKeeps(h, 88, crc, 72, 8);
    PutKeeps(h, 88, crc, 80, 4);
    PutKeeps(h, 88, crc, 84, 4);
  }

  /** The entries of a recoverable disk, read from the primary copy or, when that is damaged, from the backup. */
  method EitherEntries(disk: Disk, hp: Header, hb: Header) returns (ok: bool, ents: seq<Byte>)
    requires NumEntries(hp) * EntrySize(hp) == ENTRIES_BYTES && NumEntries(hb) * EntrySize(hb) == ENTRIES_BYTES
    ensures ok ==> |ents| == ENTRIES_BYTES
    ensures forall e: Entries :: Recoverable(disk.data, hp, hb, e) ==> ok && ents == e
  {
    hide Get;
    hide FromLittle;
    hide Crc32;
    hide Describes;
    hide Partitioned;
    hide HeaderAt;
    hide EntriesReadable;
    hide Mbr;
    forall e: Entries | Recoverable(disk.data, hp, hb, e)
      ensures EntriesAt(disk.data, EntriesLba(hb), e)
      ensures EntriesReadable(disk.data, hp) ==> EntriesAt(disk.data, EntriesLba(hp), e)
    {
      WhatIsRead(disk.data, hp, hb, e);
    }
    ok, ents := ReadEntries(disk, hp);
    if !ok { ok, ents := disk.PRead(LSEC * EntriesLba(hb), NumEntries(hb) * EntrySize(hb)); }
  }

  /** gpt add, on a disk whose headers are the tool's own: what it does to a table that can be recovered. */
  method Add(disk: Disk, a: Asked, ghost hp: Header, ghost hb: Header, ghost ents: Entries) returns (ok: bool)
    requires a.Valid() && OwnFormat(disk.data)
    modifies disk
    ensures Recoverable(old(disk.data), hp, hb, ents) ==> (ok <==> Addable(ents, 34, Total(old(disk.data)) - 34, a))
    ensures Recoverable(old(disk.data), hp, hb, ents) ==>
              if ok then WithPartition(old(disk.data), disk.data, hp, hb, ents, a) else disk.data == old(disk.data)
  {
    hide Get;
    hide Put;
    hide Recoverable;
    hide Readable;
    hide Written;
    hide FromLittle;
    hide Resealed;
    hide Clashes;
    hide Holds;
    hide Middle;
    hide FreeSlot;
    ghost var d := disk.data;
    var t := |disk.data| / LSEC;
    if Recoverable(d, hp, hb, ents) { WhatIsRead(d, hp, hb, ents); }
    if a.kind == [] || a.last < a.first { return false; }
    var got, p := ReadHeader(disk, 1, t);
    if !got { return false; }
    var b;
    got, b := ReadHeader(disk, Backup(p), t);
    if !got { return false; }
    var e;
    got, e := EitherEntries(disk, p, b);
    if !got { return false; }
    var from := if a.first < FirstUsable(p) then FirstUsable(p) else a.first;
    var to := if a.last > LastUsable(p) then LastUsable(p) else a.last;
    if to < from { return false; }
    var clash := AnyClash(e, from, to);
    if clash { return false; }
    var s := FindSlot(e);
    if s == ENTRIES_MAX { return false; }
    var now: Entries := Put(e, ENTRY_SIZE * s, EntryBytes(a.kind, a.guid, from, to, a.name));
    ResealKeeps(p, now);
    ResealKeeps(b, now);
    if Recoverable(d, hp, hb, ents) { AddHolds(d, hp, hb, ents, a); }
    ok := WriteCopy(disk, Resealed(p, now), now);
    if !ok { return; }
    ok := WriteCopy(disk, Resealed(b, now), now);
  }

  /** The disk after a partition was added: a whole table again, with the partition in it, and nothing else changed. */
  ghost predicate WithPartition(d: seq<Byte>, r: seq<Byte>, hp: Header, hb: Header, ents: Entries, a: Asked)
    requires a.Valid()
  {
    var high := Total(d) - 34;
    && |r| == |d| && high >= 34 && Addable(ents, 34, high, a)
    && Holds(r, Resealed(hp, Added(ents, 34, high, a)), Resealed(hb, Added(ents, 34, high, a)), Added(ents, 34, high, a))
    && Middle(r) == Middle(d)
  }

  lemma AddHolds(d: seq<Byte>, hp: Header, hb: Header, ents: Entries, a: Asked)
    requires a.Valid() && Recoverable(d, hp, hb, ents) && Addable(ents, 34, Total(d) - 34, a)
    ensures var t := Total(d); var now := Added(ents, 34, t - 34, a); var p, b := Resealed(hp, now), Resealed(hb, now);
      && Current(p) == 1 && EntriesLba(p) == 2 && Current(b) == t - 1 && EntriesLba(b) == t - 33
      && NumEntries(p) * EntrySize(p) == ENTRIES_BYTES && NumEntries(b) * EntrySize(b) == ENTRIES_BYTES
      && LSEC * t <= |d| && 67 <= t
      && WithPartition(d, Written(Written(d, p, now), b, now), hp, hb, ents, a)
  {
    hide Get;
    hide Put;
    hide Written;
    hide FromLittle;
    hide Describes;
    hide HeaderAt;
    hide EntriesAt;
    hide EntriesReadable;
    hide Mbr;
    hide Resealed;
    hide Holds;
    hide Middle;
    hide Partitioned;
    hide Added;
    AddedPartitions(ents, 34, Total(d) - 34, a);
    BothWritten(d, hp, hb, ents, Added(ents, 34, Total(d) - 34, a));
  }
}
