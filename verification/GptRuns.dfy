/** Runs of gpt init and gpt add. */
module GptRuns {
  import opened Bytes
  import opened Crc
  import opened Gpt
  import opened GptTool
  import opened GptAdd

  // ---- where things are ----

  /** Sectors from a first one up to an end. */
  datatype Span = Span(from: int, end: int)

  predicate Clear(a: Span, b: Span) { a.end <= b.from || b.end <= a.from }

  /** The protective MBR, the two headers and the two arrays of entries on a disk of so many sectors. */
  function Regions(t: nat): seq<Span>
  {
    [Span(0, 1), Span(1, 2), Span(2, 34), Span(t - 33, t - 1), Span(t - 1, t)]
  }

  /** gpt init accepts 35 sectors, but keeps its own structures apart only from 67 on. */
  lemma RegionsApart(t: nat)
    requires t >= 35
    ensures (forall i, j :: 0 <= i < j < 5 ==> Clear(Regions(t)[i], Regions(t)[j])) <==> t >= 67
  {
    assert Clear(Regions(t)[2], Regions(t)[3]) <==> t >= 67;
  }

  function Partition(ents: Entries, i: nat): Span
    requires i < ENTRIES_MAX
  {
    Span(First(ents, i), Last(ents, i) + 1)
  }

  /** Every partition is clear of the tool's own structures and of every other one. */
  lemma PartitionsApart(d: seq<Byte>, hp: Header, hb: Header, ents: Entries, i: nat)
    requires Holds(d, hp, hb, ents) && i < ENTRIES_MAX && !Unused(ents, i)
    ensures Total(d) >= 68 && Partition(ents, i).from < Partition(ents, i).end
    ensures forall k :: 0 <= k < 5 ==> Clear(Partition(ents, i), Regions(Total(d))[k])
    ensures forall j: nat :: j < ENTRIES_MAX && j != i && !Unused(ents, j) ==> Clear(Partition(ents, i), Partition(ents, j))
  {
    hide Unused;
    hide First;
    hide Last;
    hide Describes;
    hide HeaderAt;
    hide EntriesAt;
    hide Mbr;
  }

  // ---- runs ----

  lemma HoldsRecoverable(d: seq<Byte>, hp: Header, hb: Header, ents: Entries)
    requires Holds(d, hp, hb, ents) && |d| < 0x1_0000_0000_0000_0000
    ensures Recoverable(d, hp, hb, ents) && OwnFormat(d)
  {
    hide Partitioned;
    hide HeaderAt;
    hide EntriesAt;
    hide Mbr;
    hide EntriesReadable;
    hide Describes;
    hide Readable;
    hide FromLittle;
    hide Get;
    var t := Total(d);
    WhatIsRead(d, hp, hb, ents);
    DescribesPlaces(hp, 1, t - 1, 34, t - 34, 2, ents);
    DescribesPlaces(hb, t - 1, 1, 34, t - 34, t - 33, ents);
  }

  /** A fresh table and any partitions after it: both copies agree and are accepted, and what lies between them is untouched. */
  method Run(disk: Disk, guid: seq<Byte>, asks: seq<Asked>)
    returns (ok: bool, added: seq<bool>, ghost hp: Header, ghost hb: Header, ghost tables: seq<Entries>)
    requires |guid| == 16 && |disk.data| < 0x1_0000_0000_0000_0000 && forall a :: a in asks ==> a.Valid()
    modifies disk
    ensures |disk.data| == |old(disk.data)| && (ok <==> |disk.data| >= LSEC * 35)
    ensures ok ==> Chain(Total(disk.data), tables, asks, added) && Holds(disk.data, hp, hb, tables[|asks|])
    ensures ok && Total(disk.data) >= 67 ==> Middle(disk.data) == Middle(old(disk.data))
  {
    hide Holds;
    hide Recoverable;
    hide OwnFormat;
    hide Resealed;
    hide Middle;
    hide Zeros;
    hide Primary;
    hide Secondary;
    hide Chain;
    hide Added;
    var t := |disk.data| / LSEC;
    hp, hb, tables, added := Zeros(92), Zeros(92), [], [];
    ok := Init(disk, guid);
    if !ok { return; }
    hp, hb, tables := Primary(t, guid), Secondary(t, guid), [Zeros(ENTRIES_BYTES)];
    ChainNone(t, tables);
    assert asks[..0] == [];
    var i := 0;
    while i < |asks|
      invariant i <= |asks| && |tables| == i + 1 && Chain(t, tables, asks[..i], added)
      invariant |disk.data| == |old(disk.data)| && Holds(disk.data, hp, hb, tables[i])
      invariant t >= 67 ==> Middle(disk.data) == Middle(old(disk.data))
    {
      HoldsRecoverable(disk.data, hp, hb, tables[i]);
      var did := Add(disk, asks[i], hp, hb, tables[i]);
      ghost var now := tables[i];
      if did {
        now := Added(tables[i], 34, t - 34, asks[i]);
        hp, hb := Resealed(hp, now), Resealed(hb, now);
      }
      ChainMore(t, tables, asks, added, i, now, did);
      tables, added := tables + [now], added + [did];
      i := i + 1;
    }
    assert asks[..i] == asks;
  }

  /** The tables along a run, an empty one first. */
  ghost predicate Chain(t: nat, tables: seq<Entries>, asks: seq<Asked>, added: seq<bool>)
  {
    && |added| == |asks| && |tables| == |asks| + 1 && tables[0] == Zeros(ENTRIES_BYTES)
    && forall i :: 0 <= i < |asks| ==> StepOk(t, tables[i], tables[i + 1], asks[i], added[i])
  }

  lemma ChainNone(t: nat, tables: seq<Entries>)
    requires tables == [Zeros(ENTRIES_BYTES)]
    ensures Chain(t, tables, [], [])
  {}

  lemma ChainMore(t: nat, tables: seq<Entries>, asks: seq<Asked>, added: seq<bool>, i: nat, now: Entries, did: bool)
    requires i < |asks| && Chain(t, tables, asks[..i], added) && StepOk(t, tables[i], now, asks[i], did)
    ensures Chain(t, tables + [now], asks[..i + 1], added + [did])
  {
    hide StepOk;
    hide Zeros;
    assert asks[..i + 1] == asks[..i] + [asks[i]];
  }

  /** One gpt add on a disk of t sectors: it goes through exactly when it can, and changes one free entry. */
  ghost predicate StepOk(t: nat, was: Entries, now: Entries, a: Asked, did: bool)
  {
    && a.Valid() && t >= 34 && (did <==> Addable(was, 34, t - 34, a))
    && now == if did then Added(was, 34, t - 34, a) else was
  }
}
