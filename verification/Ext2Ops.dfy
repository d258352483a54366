/** The operations on a mounted volume: make directory, node, link and file; rewrite, truncate, unlink, read. */
module Ext2Ops {
  import Bytes
  import opened Sums
  import opened Ext2Layout
  import opened Ext2State
  import opened Ext2Frames
  import opened Ext2Steps
  import opened Ext2DirSteps
  import opened Ext2Records
  import opened Ext2Volume
  import opened Ext2Bitmaps
  import opened Ext2Engine
  import opened Ext2Alloc
  import opened Ext2Counts
  import opened Ext2FileMap
  import opened Ext2Files
  import opened Ext2Free
  import opened Ext2Dir
  import opened Ext2Entries

  const NONE: nat := 0xFFFF_FFFF_FFFF

  // ---- reading across several steps ----

  lemma ReadTrans(fs0: Fs, fs1: Fs, n: nat, fs2: Fs, p: nat)
    requires OthersRead(fs0, 0, fs1, p) && OthersRead(fs1, n, fs2, p)
    requires forall k: nat :: Counted(fs0, 0, k) ==> Counted(fs1, n, k)
    ensures OthersRead(fs0, 0, fs2, p)
  {
    hide FileBytes, Lookup, IsDir, IsReg, Counted, Shape;
    forall k: nat | k < |fs0.inodes| && k != p && Counted(fs0, 0, k) ensures SameReading(fs0, fs2, k) {
      assert SameReading(fs0, fs1, k) && SameReading(fs1, fs2, k);
    }
  }

  lemma Untouched(fs0: Fs, n: nat, fs1: Fs, p: nat)
    requires Shape(fs0) && fs1.blk == fs0.blk && |fs1.inodes| == |fs0.inodes|
    requires forall k: nat | k < |fs0.inodes| && k != p && Counted(fs0, n, k) :: fs1.inodes[k] == fs0.inodes[k]
    ensures OthersRead(fs0, n, fs1, p)
  {
    hide FileBytes, Lookup, IsDir, IsReg, Counted, Shape;
  }

  // ---- taking an inode ----

  lemma InodeTaken(fs0: Fs, ino: nat)
    requires Inv(fs0) && 0 < ino && ino - 1 < |fs0.inodes| && (ino == 2 || ino >= 11) && !IAlloc(fs0, ino - 1)
    ensures ino >= 11 && InvX(WithIBit(fs0, ino - 1, true), NO_DEBT.(newborn := ino))
    ensures var fs1 := WithIBit(fs0, ino - 1, true);
      && Shape(fs1) && fs1.geo == fs0.geo && fs1.inodes == fs0.inodes && fs1.blk == fs0.blk && fs1.bits == fs0.bits
      && fs1.totB == fs0.totB
      && (forall k: nat :: Counted(fs1, ino, k) == Counted(fs0, 0, k)) && !Counted(fs0, 0, ino - 1)
  {
    hide WithIBit, InvX, IBitSet, IAlloc, Shape;
    RootTaken(fs0);
    IBitsOf(fs0, ino - 1);
    TakeInode(fs0, NO_DEBT, WithIBit(fs0, ino - 1, true), ino - 1);
    SameButIBits(fs0, ino - 1);
    TakenCounted(fs0, WithIBit(fs0, ino - 1, true), ino - 1);
  }

  lemma RootTaken(fs: Fs)
    requires Inv(fs)
    ensures Shape(fs) && IAlloc(fs, 1) && InodeCounts(fs)
  {
    hide Ownership, LinksMatch, BlockCounts;
    assert Used(fs, 1);
  }

  lemma IBitsOf(fs: Fs, k: nat)
    requires Inv(fs) && k < |fs.inodes| && !IAlloc(fs, k)
    ensures IBitSet(fs, WithIBit(fs, k, true), k, true)
  {
    hide Ownership, LinksMatch, BlockCounts, Inodes;
    WithIBitSets(fs, k, true);
  }

  lemma TakenCounted(fs0: Fs, fs1: Fs, k0: nat)
    requires IBitSet(fs0, fs1, k0, true) && !IAlloc(fs0, k0)
    ensures forall k: nat :: Counted(fs1, k0 + 1, k) == Counted(fs0, 0, k)
  {
    hide InodeCounts, Geo.Valid;
  }

  lemma SameButIBits(fs0: Fs, k: nat)
    requires Shape(fs0) && k < |fs0.inodes|
    ensures var fs1 := WithIBit(fs0, k, true);
      && Shape(fs1) && fs1.geo == fs0.geo && fs1.inodes == fs0.inodes && fs1.blk == fs0.blk && fs1.bits == fs0.bits
      && fs1.totB == fs0.totB
  {}

  // ---- files: create, symlink, mknod ----

  /** Facts every operation's allocator call needs. */
  lemma WriteReady(fs: Fs, debt: Debt)
    requires InvX(fs, debt)
    ensures Shape(fs) && BlockCounts(fs) && MetaTaken(fs) && |fs.inodes| == fs.geo.Inodes()
  {}

  /** A transaction's blocks become spare; nobody else notices. */
  lemma WroteStep(fs1: Fs, debt: Debt, fs2: Fs, t: set<nat>, p: nat)
    requires InvX(fs1, debt) && Wrote(fs1, fs2, t)
    ensures InvX(fs2, debt.(spare := debt.spare + t))
    ensures OthersRead(fs1, debt.newborn, fs2, p)
    ensures Shape(fs2) && fs2.geo == fs1.geo && fs2.inodes == fs1.inodes && fs2.ibits == fs1.ibits
    ensures forall k: nat :: Counted(fs2, debt.newborn, k) == Counted(fs1, debt.newborn, k)
  {
    hide InvX, TreeCnt, Geo.IsMeta, Geo.Valid, BlockCounts, Alloc;
    var fsA := fs2.(blk := fs1.blk);
    assert BitsSet(fs1, fsA, t, true) by { BitsSetBack(fs1, fs2, t); }
    var debt2 := debt.(spare := debt.spare + t);
    TakeBlocks(fs1, debt, fsA, t);
    WriteSpare(fsA, debt2, fs2.blk, t);
    BitsOnly(fs1, fsA, t, debt.newborn);
    UnwrittenRead(fs1, debt.newborn, fs2.blk, t, p);
    OthersKeptBy(fs1, debt.newborn, fs1.(blk := fs2.blk), fs2, p);
  }

  lemma BitsSetBack(fs1: Fs, fs2: Fs, t: set<nat>)
    requires Wrote(fs1, fs2, t)
    ensures BitsSet(fs1, fs2.(blk := fs1.blk), t, true) && Shape(fs2)
  {}

  /** Directory k maps name to x now, every other name as before. */
  ghost predicate NameAdded(fs0: Fs, fs: Fs, k: nat, name: string, x: Found)
    requires k < |fs0.inodes| == |fs.inodes|
  {
    forall nm: string ::
      Lookup(fs.blk, fs.inodes[k], nm) == if nm == name then x else Lookup(fs0.blk, fs0.inodes[k], nm)
  }

  ghost predicate SameNames(fs0: Fs, fs: Fs, k: nat)
    requires k < |fs0.inodes| == |fs.inodes|
  {
    forall nm: string :: Lookup(fs.blk, fs.inodes[k], nm) == Lookup(fs0.blk, fs0.inodes[k], nm)
  }

  /** Blocks a file of these contents takes, pointer blocks included. */
  function BlocksFor(data: seq<Byte>): nat { NeedBlocks((|data| + BS - 1) / BS) }

  /** Room for a new entry of that name in that directory, an inode and need blocks: the entry goes where a record has
      slack, or takes a block more. */
  ghost predicate Room(fs: Fs, parent: seq<string>, name: string, need: nat) {
    var p := PathTo(fs, 2, parent);
    && fs.geo.groups <= MAX_GROUPS && NameOK(name) && DirIno(fs, p) && Find(fs, p, name) == Missing
    && fs.totI > 0 && need <= fs.totB && (HasSlack(fs, p - 1, name) || (CanGrow(fs, p - 1) && need < fs.totB))
  }

  /** A free inode is counted, so there is one to be offered. */
  lemma InodeLeft(fs: Fs)
    requires Inv(fs) && fs.totI > 0
    ensures Shape(fs) && exists k: nat :: Offered(fs, k) && !IAlloc(fs, k)
  {
    hide Ownership, LinksMatch, BlockCounts, InodeCounts, IAlloc, Geo.Valid, Offered, InodeOK;
    var g, i := FreePlace(fs);
    TakenAt(fs, g, i);
    assert g * IPG + i >= 10;
    CountsOne(fs, g, i);
  }

  /** ... and an inode that is free is counted. */
  lemma InodeCounted(fs: Fs, k: nat)
    requires Inv(fs) && k < |fs.inodes|
    ensures Shape(fs) && (!IAlloc(fs, k) ==> fs.totI > 0)
  {
    hide Ownership, LinksMatch, BlockCounts, Inodes, DirCounts, Geo.Valid;
    if !IAlloc(fs, k) {
      var g, i := k / IPG, k % IPG;
      hide Sum;
      SumMember(IPG, BoolTerm(fs.ibits[g]), i);
      SumMember(|fs.freeI|, (j: nat) => if j < |fs.freeI| then fs.freeI[j] else 0, g);
    }
  }

  /** A group that counts a free inode has a clear bit. */
  lemma FreePlace(fs: Fs) returns (g: nat, i: nat)
    requires Shape(fs) && InodeCounts(fs) && fs.totI > 0
    ensures g < fs.geo.groups && fs.freeI[g] != 0 && i < IPG && !fs.ibits[g][i]
  {
    hide Geo.Valid;
    var f := (k: nat) => if k < |fs.freeI| then fs.freeI[k] else 0;
    SumZero(|fs.freeI|, f);
    g :| g < |fs.freeI| && f(g) != 0;
    SumZero(IPG, BoolTerm(fs.ibits[g]));
    i :| i < IPG && BoolTerm(fs.ibits[g])(i) != 0;
  }

  lemma CountsOne(fs: Fs, g: nat, i: nat)
    requires Shape(fs) && g < fs.geo.groups && i < IPG && fs.freeI[g] != 0 && g * IPG + i < |fs.inodes| && g * IPG + i >= 10
    ensures Offered(fs, g * IPG + i)
  {
    InoOf(g, i);
  }

  lemma PathZeroIsNoDir(fs: Fs, parent: seq<string>)
    ensures DirIno(fs, PathTo(fs, 2, parent)) ==> PathTo(fs, 2, parent) != 0
  {}

  /** What a successful creation leaves: under that parent and name, inode ino; all else as it was. */
  ghost predicate Created(fs0: Fs, fs: Fs, parent: seq<string>, name: string, ino: nat, ftype: nat) {
    var p := PathTo(fs0, 2, parent);
    && Inv(fs) && Inv(fs0) && fs.geo == fs0.geo
    && NameOK(name) && DirIno(fs0, p) && Find(fs0, p, name) == Missing
    && 1 <= ino <= |fs0.inodes| && !Counted(fs0, 0, ino - 1) && Counted(fs, 0, ino - 1)
    && |fs.inodes| == |fs0.inodes|
    && IsDir(fs.inodes[p - 1]) && NameAdded(fs0, fs, p - 1, name, Entry(ino, ftype))
    && OthersRead(fs0, 0, fs, p - 1)
    && (forall k: nat | Counted(fs0, 0, k) :: Counted(fs, 0, k))
  }

  /** State with the child written but not listed yet. */
  ghost predicate Waiting(fs0: Fs, fs: Fs, ino: nat, debt: Debt) {
    && Inv(fs0) && InvX(fs, debt) && fs.geo == fs0.geo
    && 1 <= ino <= |fs0.inodes| == |fs.inodes| && !Counted(fs0, 0, ino - 1) && Counted(fs, 0, ino - 1)
    && debt.newborn == 0 && debt.lone == ino && debt.grown == 0 && debt.spare == {}
    && (forall k: nat | Counted(fs0, 0, k) :: Counted(fs, 0, k))
    && OthersRead(fs0, 0, fs, NONE) && Steady(fs0, fs)
  }

  /** Blocks that were allocated hold what they held. */
  ghost predicate Steady(fs0: Fs, fs: Fs) {
    Shape(fs0) && |fs.blk| == |fs0.blk| && forall b: nat | b < |fs0.blk| && Alloc(fs0, b) :: fs.blk[b] == fs0.blk[b]
  }

  /** Then there is slack in a directory where there was. */
  lemma SameSlack(fs0: Fs, fs: Fs, p: nat, name: string)
    requires Inv(fs0) && Steady(fs0, fs) && p < |fs0.inodes| == |fs.inodes| && fs.inodes[p] == fs0.inodes[p]
    requires Counted(fs0, 0, p) && IsDir(fs0.inodes[p])
    ensures HasSlack(fs, p, name) <==> HasSlack(fs0, p, name)
    ensures CanGrow(fs, p) <==> CanGrow(fs0, p)
  {
    hide InvX, SlackFrom, Counted, FileType, Alloc, Shape;
    var dir := fs0.inodes[p];
    forall x: nat | x < 12 ensures SlackIn(fs, dir, name, x) == SlackIn(fs0, dir, name, x) {
      if dir.block[x] != 0 { DirBlockPlace(fs0, NO_DEBT, p, x); }
    }
  }

  lemma StillSteady(fs0: Fs, fs1: Fs, fs2: Fs, t: set<nat>)
    requires Shape(fs0) && fs1.blk == fs0.blk && SameBut(fs1.blk, fs2.blk, t)
    requires forall b | b in t :: !Alloc(fs0, b)
    ensures Steady(fs0, fs2)
  {}

  lemma ReadMine(fs0: Fs, fs: Fs, k: nat)
    requires OthersRead(fs0, 0, fs, NONE) && k < |fs0.inodes| && k != NONE && Counted(fs0, 0, k)
    ensures SameReading(fs0, fs, k)
  {}

  lemma FewInodes(fs: Fs)
    requires Shape(fs)
    ensures |fs.inodes| < NONE
  {}

  lemma AppendReady(fs0: Fs, fs: Fs, p: nat, ino: nat, ftype: nat, name: string, debt: Debt)
    requires Waiting(fs0, fs, ino, debt) && DirIno(fs0, p) && Counted(fs0, 0, p - 1) && NameOK(name)
    requires Find(fs0, p, name) == Missing
    ensures CanAppend(fs, debt, p - 1, ino, ftype, name)
    ensures SameNames(fs0, fs, p - 1)
  {
    hide InvX, Counted, Lookup, FileBytes, IsDir, Shape;
    assert Shape(fs0) by { ShapeOf(fs0, NO_DEBT); }
    FewInodes(fs0);
    ReadMine(fs0, fs, p - 1);
  }

  /** After the entry is in, a plain child is complete. */
  lemma ListedDone(fs0: Fs, fs1: Fs, fs: Fs, parent: seq<string>, name: string, ino: nat, ftype: nat, debt: Debt)
    requires Waiting(fs0, fs1, ino, debt) && debt.parent == 0 && debt.uncounted == 0 && ftype != 2
    requires var p := PathTo(fs0, 2, parent);
      DirIno(fs0, p) && Counted(fs0, 0, p - 1) && NameOK(name) && Find(fs0, p, name) == Missing
    requires |fs.inodes| == |fs1.inodes| && fs.ibits == fs1.ibits && fs.geo == fs1.geo
    requires var p := PathTo(fs0, 2, parent) - 1;
      && InvX(fs, After(debt, p, ftype)) && Listed(fs1, fs, p, ino, ftype, name) && OthersRead(fs1, 0, fs, p)
    ensures Created(fs0, fs, parent, name, ino, ftype)
  {
    hide InvX, Lookup, FileBytes, IsDir, Shape, SameReading;
    var p := PathTo(fs0, 2, parent) - 1;
    assert Shape(fs0) && Shape(fs1) && Shape(fs) by {
      ShapeOf(fs0, NO_DEBT);
      ShapeOf(fs1, debt);
      ShapeOf(fs, After(debt, p, ftype));
    }
    assert After(debt, p, ftype) == NO_DEBT;
    AppendReady(fs0, fs1, p + 1, ino, ftype, name, debt);
    CountedByBits(fs1, fs, 0);
    Weaker(fs0, fs1, p);
    ReadTrans(fs0, fs1, 0, fs, p);
  }

  lemma Weaker(fs0: Fs, fs1: Fs, p: nat)
    requires OthersRead(fs0, 0, fs1, NONE)
    ensures OthersRead(fs0, 0, fs1, p)
  {
    FewInodes(fs0);
  }

  lemma CountedByBits(fs1: Fs, fs: Fs, n: nat)
    requires Shape(fs1) && Shape(fs) && fs.ibits == fs1.ibits && |fs.inodes| == |fs1.inodes|
    ensures forall k: nat :: Counted(fs1, n, k) == Counted(fs, n, k)
  {}

  /** An inode without blocks of its own, or with those of t. */
  lemma PublishedFile(fs0: Fs, fs1: Fs, ino: nat, ni: Inode, t: set<nat>)
    requires Inv(fs0) && InvX(fs1, NO_DEBT.(newborn := ino, spare := t)) && fs1.geo == fs0.geo && ino >= 11
    requires |fs1.inodes| == |fs0.inodes| && PlainInode(fs1.blk, ni, t)
    requires OthersRead(fs0, 0, fs1, NONE) && Steady(fs0, fs1) && !Counted(fs0, 0, ino - 1)
    requires forall k: nat :: Counted(fs1, ino, k) == Counted(fs0, 0, k)
    ensures ino <= |fs1.inodes|
    ensures Waiting(fs0, fs1.(inodes := fs1.inodes[ino - 1 := ni]), ino, NO_DEBT.(lone := ino))
  {
    hide InvX, PlainInode, FileBytes, Lookup, IsDir, IsReg, SameReading;
    var debt := NO_DEBT.(newborn := ino, spare := t);
    PublishFile(fs1, debt, ino - 1, ni, t);
    var fs2 := fs1.(inodes := fs1.inodes[ino - 1 := ni]);
    assert debt.(spare := debt.spare - t, newborn := 0, lone := ino) == NO_DEBT.(lone := ino);
    NewbornUsed(fs1, debt);
    FewInodes(fs1);
    Untouched(fs1, ino, fs2, ino - 1);
    assert OthersRead(fs1, ino, fs2, NONE) by { NewbornUnread(fs1, ino, fs2); }
    ReadTrans(fs0, fs1, ino, fs2, NONE);
  }

  lemma NewbornUnread(fs1: Fs, ino: nat, fs2: Fs)
    requires ino >= 1 && OthersRead(fs1, ino, fs2, ino - 1)
    ensures OthersRead(fs1, ino, fs2, NONE)
  {
    hide FileBytes, Lookup, IsDir, IsReg, SameReading;
  }

  lemma NewbornUsed(fs: Fs, debt: Debt)
    requires InvX(fs, debt) && debt.newborn != 0
    ensures Shape(fs) && Used(fs, debt.newborn - 1) && debt.newborn <= |fs.inodes|
  {}

  /** List a written child in its parent and be done. */
  method ListChild(v: Volume, parentIno: nat, ino: nat, ftype: nat, name: string,
                   ghost fs0: Fs, ghost parent: seq<string>) returns (ok: bool)
    requires v.Synced() && Waiting(fs0, v.fs, ino, NO_DEBT.(lone := ino)) && ftype != 2
    requires parentIno == PathTo(fs0, 2, parent) && 1 <= parentIno <= |fs0.inodes| && Counted(fs0, 0, parentIno - 1)
    requires NameOK(name) && Find(fs0, parentIno, name) == Missing
    modifies v`dev, v`fs, v`sb, v`gd
    ensures v.Synced()
    ensures ok ==> Created(fs0, v.fs, parent, name, ino, ftype)
    ensures ok ==> v.fs.inodes[ino - 1] == old(v.fs).inodes[ino - 1]
    ensures ok ==> SameReading(old(v.fs), v.fs, ino - 1)
    ensures DirIno(fs0, parentIno) ==>
      (ok <==> HasSlack(fs0, parentIno - 1, name) || (CanGrow(fs0, parentIno - 1) && old(v.fs).totB > 0))
  {
    hide InvX, Counted, Lookup, FileBytes, Shape, IsReg, Rep, Loaded, FileType, HasSlack, CanGrow;
    ghost var fs1, debt := v.fs, NO_DEBT.(lone := ino);
    assert Shape(fs0) && Shape(fs1) by { ShapeOf(fs0, NO_DEBT); ShapeOf(fs1, debt); }
    FewInodes(fs0);
    ReadMine(fs0, fs1, parentIno - 1);
    if IsDir(fs1.inodes[parentIno - 1]) {
      AppendReady(fs0, fs1, parentIno, ino, ftype, name, debt);
      SameSlack(fs0, fs1, parentIno - 1, name);
    }
    ok := AppendDirent(v, parentIno, ino, ftype, name, debt);
    if ok {
      RoomInDir(fs1, parentIno - 1, name);
      ListedDone(fs0, fs1, v.fs, parent, name, ino, ftype, debt);
    }
  }

  lemma RoomInDir(fs: Fs, p: nat, name: string)
    requires DirRoom(fs, p, name)
    ensures p < |fs.inodes| && IsDir(fs.inodes[p])
  {}

  /** The part every creating operation begins with: load, resolve the parent, check the name. */
  method Begin(v: Volume, parent: seq<string>, name: string) returns (ok: bool, parentIno: nat, rc: int, existing: nat)
    requires v.OnDisk() && Inv(v.fs)
    modifies v`sb, v`gd
    ensures ok ==> v.Synced() && NameOK(name) && parentIno == PathTo(v.fs, 2, parent)
    ensures ok ==> 1 <= parentIno <= |v.fs.inodes| && Counted(v.fs, 0, parentIno - 1)
    ensures ok && rc == 0 ==> DirIno(v.fs, parentIno) && Find(v.fs, parentIno, name) == Missing
    ensures ok && rc == 1 ==> exists t :: Find(v.fs, parentIno, name) == Entry(existing, t)
    ensures ok && rc == 1 ==> 1 <= existing <= |v.fs.inodes| && Counted(v.fs, 0, existing - 1)
    ensures ok && rc < 0 ==> !DirIno(v.fs, parentIno) && Find(v.fs, parentIno, name) == Missing
    ensures ok ==> rc <= 1
    ensures ok <==> v.fs.geo.groups <= MAX_GROUPS && NameOK(name) && PathTo(v.fs, 2, parent) != 0
    ensures ok && DirIno(v.fs, parentIno) && Find(v.fs, parentIno, name) == Missing ==> rc == 0
  {
    hide InvX, Counted, Lookup, Rep, Loaded;
    parentIno, rc, existing := 0, -1, 0;
    ok := v.LoadMeta();
    if !ok { return; }
    if |name| == 0 || |name| > 255 { ok := false; return; }
    ok, parentIno := Resolve(v, parent);
    if !ok { return; }
    var t;
    rc, existing, t := FindEntry(v, parentIno, name, NO_DEBT);
    if rc == 1 { EntryInUse(v.fs, NO_DEBT, parentIno - 1, name); }
  }

  lemma CanAllocate(fs: Fs, debt: Debt)
    requires InvX(fs, debt)
    ensures Shape(fs) && |fs.inodes| == fs.geo.Inodes() && Alloc(fs, 0)
  {
    ZeroTaken(fs, debt);
  }

  lemma RegOnly(i: Inode)
    requires IsReg(i)
    ensures !NoTree(i) && !IsDir(i)
  {}

  /** i_blocks is in units of 512 bytes and covers data and pointer blocks alike. */
  ghost predicate BlocksRight(fs: Fs, i: Inode)
    requires Shape(fs)
  {
    i.blocks == BS / 512 * |TreeBlocks(fs, i)|
  }

  lemma ContentsBlocks(fs: Fs, file0: Inode, file: Inode, data: seq<Byte>, t: set<nat>)
    requires Shape(fs) && IsReg(file0) && HasContents(fs.blk, file0, file, data, t)
    requires forall b | b in t :: b < fs.geo.blocks
    ensures TreeBlocks(fs, file) == t && BlocksRight(fs, file)
  {
    hide FileBytes, TreeCnt, SlotsCnt;
    KindByMode(file0, file);
    RegOnly(file);
    forall b: nat ensures SlotsCnt(fs.blk, file, b, 15) == One(b in t) {
      assert TreeCnt(fs.blk, file, b) == One(b in t);
      TreeOfReg(fs.blk, file, b);
    }
  }

  lemma TreeOfReg(d: seq<Block>, i: Inode, b: nat)
    requires !NoTree(i)
    ensures TreeCnt(d, i, b) == SlotsCnt(d, i, b, 15)
  {}

  lemma TreeBlocksKept(fs1: Fs, fs: Fs, i: Inode)
    requires Shape(fs1) && Shape(fs) && fs1.geo == fs.geo && !NoTree(i) && SameTree(fs1.blk, fs.blk, i)
    ensures TreeBlocks(fs, i) == TreeBlocks(fs1, i)
  {
    hide TreeCnt, SlotsCnt;
    forall b: nat ensures SlotsCnt(fs.blk, i, b, 15) == SlotsCnt(fs1.blk, i, b, 15) {
      assert TreeCnt(fs.blk, i, b) == TreeCnt(fs1.blk, i, b);
      TreeOfReg(fs.blk, i, b);
      TreeOfReg(fs1.blk, i, b);
    }
  }

  lemma OwnBlocks(fs0: Fs, fs1: Fs, fs2: Fs, fs3: Fs, file0: Inode, file: Inode, data: seq<Byte>, t: set<nat>)
    requires Shape(fs0) && Shape(fs1) && Shape(fs3) && fs1.bits == fs0.bits && fs1.geo == fs0.geo
    requires Wrote(fs1, fs2, t) && fs3 == fs2.(inodes := fs3.inodes) && |fs3.inodes| == |fs2.inodes|
    requires IsReg(file0) && HasContents(fs2.blk, file0, file, data, t)
    ensures BlocksRight(fs3, file) && forall b | b in TreeBlocks(fs3, file) :: !Alloc(fs0, b)
  {
    hide FileBytes, TreeCnt, TreeBlocks, FileType, BlockCounts;
    ContentsBlocks(fs3, file0, file, data, t);
  }

  /** New inode ino holds data in blocks that were free before. */
  ghost predicate Holding(fs0: Fs, fs: Fs, ino: nat, data: seq<Byte>) {
    && Shape(fs0) && Shape(fs) && 1 <= ino <= |fs.inodes|
    && IsReg(fs.inodes[ino - 1]) && FileBytes(fs.blk, fs.inodes[ino - 1]) == data
    && fs.inodes[ino - 1].mode == 0x81A4 && fs.inodes[ino - 1].size == |data| && BlocksRight(fs, fs.inodes[ino - 1])
    && forall b | b in TreeBlocks(fs, fs.inodes[ino - 1]) :: !Alloc(fs0, b)
  }

  lemma StillHolding(fs0: Fs, fs3: Fs, fs: Fs, ino: nat, data: seq<Byte>)
    requires Holding(fs0, fs3, ino, data) && Shape(fs) && fs.geo == fs3.geo && |fs.inodes| == |fs3.inodes|
    requires SameReading(fs3, fs, ino - 1)
    ensures Holding(fs0, fs, ino, data)
  {
    hide FileBytes, TreeBlocks, FileType, SameTree;
    RegOnly(fs.inodes[ino - 1]);
    TreeBlocksKept(fs3, fs, fs.inodes[ino - 1]);
  }

  /** From taken inode to written file: fs1 inode taken, fs2 contents written, then the inode itself. */
  lemma Filled(fs0: Fs, fs1: Fs, fs2: Fs, ino: nat, file0: Inode, file: Inode, data: seq<Byte>, t: set<nat>)
    requires Inv(fs0) && InvX(fs1, NO_DEBT.(newborn := ino)) && ino >= 11 && Shape(fs0) && Shape(fs1)
    requires fs1.geo == fs0.geo && fs1.inodes == fs0.inodes && fs1.blk == fs0.blk && fs1.bits == fs0.bits
    requires (forall k: nat :: Counted(fs1, ino, k) == Counted(fs0, 0, k)) && !Counted(fs0, 0, ino - 1)
    requires Wrote(fs1, fs2, t) && file0 == InodeFields(0x81A4, 0, 0, 1, 0, NO_BLOCKS)
    requires HasContents(fs2.blk, file0, file, data, t)
    ensures ino <= |fs2.inodes| == fs2.geo.Inodes() && fs2.geo == fs0.geo
    ensures var fs3 := fs2.(inodes := fs2.inodes[ino - 1 := file]);
      Waiting(fs0, fs3, ino, NO_DEBT.(lone := ino)) && Holding(fs0, fs3, ino, data)
  {
    hide InvX, Counted, Lookup, FileBytes, Shape, FileType, TreeCnt, BlocksRight, TreeBlocks, SameTree, Waiting, Wrote,
      Steady, OthersRead, SameReading, Alloc;
    var debt := NO_DEBT.(newborn := ino);
    WroteStep(fs1, debt, fs2, t, NONE);
    Untouched(fs0, 0, fs1, NONE);
    ReadTrans(fs0, fs1, ino, fs2, NONE);
    RegMode(file);
    RegMode(file0);
    assert PlainInode(fs2.blk, file, t);
    WroteSteady(fs0, fs1, fs2, t);
    PublishedFile(fs0, fs2, ino, file, t);
    ShapeOf(fs2, debt.(spare := t));
    InodesLen(fs2);
    var fs3 := fs2.(inodes := fs2.inodes[ino - 1 := file]);
    OtherInode(fs2, ino - 1, file);
    OwnBlocks(fs0, fs1, fs2, fs3, file0, file, data, t);
  }

  lemma WroteSteady(fs0: Fs, fs1: Fs, fs2: Fs, t: set<nat>)
    requires Shape(fs0) && Shape(fs1) && fs1.blk == fs0.blk && fs1.bits == fs0.bits && fs1.geo == fs0.geo && Wrote(fs1, fs2, t)
    ensures Steady(fs0, fs2)
  {
    hide BitsSet, Geo.Valid, Geo.IsMeta;
    StillSteady(fs0, fs1, fs2, t);
  }

  lemma InodesLen(fs: Fs)
    requires Shape(fs)
    ensures |fs.inodes| == fs.geo.Inodes()
  {}

  /** Contents and inode of a file whose inode has just been taken. */
  method FillNew(v: Volume, ino: nat, data: seq<Byte>, ghost fs0: Fs) returns (ok: bool)
    requires v.Synced() && Inv(fs0) && InvX(v.fs, NO_DEBT.(newborn := ino)) && ino >= 11
    requires Shape(fs0) && v.fs.geo == fs0.geo && v.fs.inodes == fs0.inodes && v.fs.blk == fs0.blk && v.fs.bits == fs0.bits
    requires (forall k: nat :: Counted(v.fs, ino, k) == Counted(fs0, 0, k)) && !Counted(fs0, 0, ino - 1)
    modifies v
    ensures ok ==> v.Synced() && Waiting(fs0, v.fs, ino, NO_DEBT.(lone := ino)) && Holding(fs0, v.fs, ino, data)
    ensures ok <==> FitsInFile(data) && BlocksFor(data) <= old(v.fs).totB
    ensures ok ==> v.fs.totB + BlocksFor(data) == old(v.fs).totB
  {
    hide InvX, Counted, Shape, Rep, Loaded, FileType, Waiting, Holding, Wrote, HasContents;
    ghost var fs1 := v.fs;
    ShapeOf(fs1, NO_DEBT.(newborn := ino));
    WriteReady(fs1, NO_DEBT.(newborn := ino));
    var file0: Inode := InodeFields(0x81A4, 0, 0, 1, 0, NO_BLOCKS);
    RegMode(file0);
    var file;
    ghost var t;
    ok, file, t := WriteContents(v, file0, data);
    if !ok { return false; }
    Filled(fs0, fs1, v.fs, ino, file0, file, data, t);
    ok := v.WriteInode(ino, file);
  }

  lemma OtherInode(fs: Fs, k: nat, i: Inode)
    requires Shape(fs) && k < |fs.inodes|
    ensures Shape(fs.(inodes := fs.inodes[k := i]))
  {}

  /** ext2_create_and_write */
  method Create(v: Volume, parent: seq<string>, name: string, data: seq<Byte>) returns (ok: bool, ghost ino: nat)
    requires v.OnDisk() && Inv(v.fs)
    modifies v
    ensures ok ==> v.OnDisk() && Created(old(v.fs), v.fs, parent, name, ino, 1)
    ensures ok ==> Holding(old(v.fs), v.fs, ino, data)
    ensures ok <==> Room(old(v.fs), parent, name, BlocksFor(data)) && FitsInFile(data)
  {
    hide InvX, Counted, Lookup, Shape, Rep, Loaded, WithIBit, FileType, TreeCnt, SameReading, Holding, NeedBlocks,
      Offered, IAlloc;
    PathZeroIsNoDir(v.fs, parent);
    ino := 0;
    var parentIno, rc, existing;
    ok, parentIno, rc, existing := Begin(v, parent, name);
    if !ok || rc == 1 { return false, 0; }
    if |data| > 0xFFFF_FFFF || (|data| + BS - 1) / BS > 12 + PTRS + PTRS * PTRS { return false, 0; }
    ghost var fs0 := v.fs;
    if fs0.totI > 0 { InodeLeft(fs0); }
    var newIno := AllocInode(v);
    if newIno == 0 {
      assert fs0.totI == 0;
      return false, 0;
    }
    ino := newIno;
    InodeCounted(fs0, newIno - 1);
    InodeTaken(fs0, newIno);
    assert Shape(fs0) by { ShapeOf(fs0, NO_DEBT); }
    ok := FillNew(v, newIno, data, fs0);
    if !ok { return false, 0; }
    ghost var fs3 := v.fs;
    ok := ListChild(v, parentIno, newIno, 1, name, fs0, parent);
    if !ok { return false, 0; }
    assert Shape(v.fs) && Shape(fs3) by { ShapeOf(v.fs, NO_DEBT); ShapeOf(fs3, NO_DEBT.(lone := ino)); }
    StillHolding(fs0, fs3, v.fs, newIno, data);
  }

  lemma RegMode(i: Inode)
    ensures i.mode == 0x81A4 ==> IsReg(i) && KnownType(i) && !IsDir(i)
  {}

  /** ext2_symlink_at: a short target lives in the inode's block words. */
  method Symlink(v: Volume, parent: seq<string>, name: string, target: seq<Byte>) returns (ok: bool, ghost ino: nat)
    requires v.OnDisk() && Inv(v.fs)
    modifies v
    ensures ok ==> v.OnDisk() && Created(old(v.fs), v.fs, parent, name, ino, 7)
    ensures ok ==> v.fs.inodes[ino - 1].mode == 0xA1FF && IsLink(v.fs.inodes[ino - 1]) && LinksTo(v.fs.inodes[ino - 1], target)
    ensures ok <==> Room(old(v.fs), parent, name, 0) && 1 <= |target| <= 60
  {
    hide PackWords, Created, InvX, Rep, LinksTo;
    ino := 0;
    if |target| == 0 || |target| > 60 { return false, 0; }
    Unpacked(target);
    ok, ino := MakePlain(v, parent, name, InodeFields(0xA1FF, |target|, 0, 1, 0, PackWords(target)), 7);
  }

  /** memcpy of up to 60 bytes into fifteen little-endian words. */
  function PackWords(target: seq<Byte>): (w: seq<nat>)
    ensures |w| == 15
  {
    seq(15, (j: nat) => ByteAt(target, 4 * j) + 256 * ByteAt(target, 4 * j + 1)
                      + 65536 * ByteAt(target, 4 * j + 2) + 16777216 * ByteAt(target, 4 * j + 3))
  }

  /** Byte k of the block words as they lie on the disk, lowest byte of each word first. */
  function LinkByte(i: Inode, k: nat): nat
    requires k < 60
  {
    i.block[k / 4] / Bytes.Pow2(8 * (k % 4)) % 256
  }

  /** The inode's size and words spell the target. */
  predicate LinksTo(i: Inode, target: seq<Byte>) {
    i.size == |target| <= 60 && forall k: nat | k < 60 :: LinkByte(i, k) == if k < |target| then target[k] else 0
  }

  lemma WordBytes(a: nat, b: nat, c: nat, d: nat)
    requires a < 256 && b < 256 && c < 256 && d < 256
    ensures var w := a + 256 * b + 65536 * c + 16777216 * d;
      w % 256 == a && w / 256 % 256 == b && w / 65536 % 256 == c && w / 16777216 % 256 == d
  {
    var w := a + 256 * b + 65536 * c + 16777216 * d;
    assert w / 256 == b + 256 * c + 65536 * d;
    assert w / 65536 == c + 256 * d;
  }

  lemma BytePowers()
    ensures Bytes.Pow2(0) == 1 && Bytes.Pow2(8) == 256 && Bytes.Pow2(16) == 65536 && Bytes.Pow2(24) == 16777216
  {
    assert Bytes.Pow2(4) == 16;
    assert Bytes.Pow2(8) == 256;
    assert Bytes.Pow2(12) == 4096;
    assert Bytes.Pow2(16) == 65536;
    assert Bytes.Pow2(20) == 1048576;
  }

  /** The packed words hold the target byte by byte, then zeros. */
  lemma Unpacked(target: seq<Byte>)
    ensures forall i: Inode | i.block == PackWords(target) && i.size == |target| <= 60 :: LinksTo(i, target)
  {
    forall i: Inode, k: nat | k < 60 && i.block == PackWords(target)
      ensures LinkByte(i, k) == if k < |target| then target[k] else 0
    {
      var j, r := k / 4, k % 4;
      assert i.block[j] == PackWords(target)[j];
      WordBytes(ByteAt(target, 4 * j), ByteAt(target, 4 * j + 1), ByteAt(target, 4 * j + 2), ByteAt(target, 4 * j + 3));
      BytePowers();
      hide Bytes.Pow2, PackWords;
      if r == 0 { } else if r == 1 { } else if r == 2 { } else { }
    }
  }

  function ByteAt(s: seq<Byte>, k: nat): nat { if k < |s| then s[k] else 0 }

  /** ext2_mknod_at for character and block devices */
  method Mknod(v: Volume, parent: seq<string>, name: string, mode: nat, major: nat, minor: nat)
    returns (ok: bool, ghost ino: nat)
    requires v.OnDisk() && Inv(v.fs) && mode < 0x1_0000
    modifies v
    ensures ok ==> v.OnDisk() && FileType(mode) in {2, 6}
    ensures ok ==> Created(old(v.fs), v.fs, parent, name, ino, if FileType(mode) == 2 then 3 else 4)
    ensures ok ==> v.fs.inodes[ino - 1].mode == mode && DeviceOf(v.fs.inodes[ino - 1]) == (major, minor)
    ensures ok <==> Room(old(v.fs), parent, name, 0) && FileType(mode) in {2, 6} && major <= 0xFFF && minor <= 0xFFFFF
  {
    hide Created, InvX, Rep, DeviceOf;
    ino := 0;
    var dirType;
    if FileType(mode) == 2 { dirType := 3; }
    else if FileType(mode) == 6 { dirType := 4; }
    else { return false, 0; }
    if major > 0xFFF || minor > 0xFFFFF { return false, 0; }
    var block := NO_BLOCKS;
    if major < 256 && minor < 256 {
      block := block[0 := major * 256 + minor];
    } else {
      block := block[1 := minor % 256 + major * 256 + minor / 256 * 256 * 4096];
    }
    var node: Inode := InodeFields(FileType(mode) * 4096 + mode % 4096, 0, 0, 1, 0, block);
    assert node.mode == mode && DeviceOf(node) == (major, minor) by { DeviceRoundTrip(node, mode, major, minor); }
    ok, ino := MakePlain(v, parent, name, node, dirType);
  }

  /** Which device a node's words name: the old 8:8 encoding in word 0, else the 12:20 one in word 1. */
  function DeviceOf(i: Inode): (nat, nat) {
    if i.block[1] == 0 then (i.block[0] / 256, i.block[0] % 256)
    else (i.block[1] / 256 % 4096, i.block[1] % 256 + i.block[1] / 0x10_0000 * 256)
  }

  lemma DeviceRoundTrip(i: Inode, mode: nat, major: nat, minor: nat)
    requires mode < 0x1_0000 && i.mode == FileType(mode) * 4096 + mode % 4096
    requires major <= 0xFFF && minor <= 0xFFFFF
    requires if major < 256 && minor < 256 then i.block == NO_BLOCKS[0 := major * 256 + minor]
             else i.block == NO_BLOCKS[1 := minor % 256 + major * 256 + minor / 256 * 256 * 4096]
    ensures i.mode == mode && DeviceOf(i) == (major, minor)
    ensures FileType(mode) in {2, 6} ==> NoTree(i)
  {
    ModeSplit(mode);
    hide FileType;
    if major < 256 && minor < 256 { OldEncoding(major, minor); } else { NewEncoding(major, minor); }
  }

  lemma ModeSplit(mode: nat)
    requires mode < 0x1_0000
    ensures FileType(mode) * 4096 + mode % 4096 == mode
    ensures FileType(mode) in {2, 6} ==> forall i: Inode | i.mode == mode :: NoTree(i)
  {}

  lemma OldEncoding(major: nat, minor: nat)
    requires minor < 256
    ensures (major * 256 + minor) / 256 == major && (major * 256 + minor) % 256 == minor
  {}

  lemma LowDigit(lo: nat, hi: nat)
    ensures lo < 256 ==> (lo + hi * 256) / 256 == hi && (lo + hi * 256) % 256 == lo
    ensures lo < 4096 ==> (lo + hi * 4096) / 4096 == hi && (lo + hi * 4096) % 4096 == lo
  {}

  lemma ShiftTwice(w: nat)
    ensures w / 0x10_0000 == w / 256 / 4096
  {}

  lemma NewEncoding(major: nat, minor: nat)
    requires major <= 0xFFF && minor <= 0xFFFFF && (major >= 256 || minor >= 256)
    ensures var w := minor % 256 + major * 256 + minor / 256 * 256 * 4096;
      w != 0 && w / 256 % 4096 == major && w % 256 + w / 0x10_0000 * 256 == minor
  {
    var hi, lo := minor / 256, minor % 256;
    var w := lo + (major + hi * 4096) * 256;
    assert w == minor % 256 + major * 256 + minor / 256 * 256 * 4096;
    LowDigit(lo, major + hi * 4096);
    LowDigit(major, hi);
    ShiftTwice(w);
  }

  /** The common part of ext2_symlink_at and ext2_mknod_at: an inode without blocks. */
  method MakePlain(v: Volume, parent: seq<string>, name: string, node: Inode, ftype: nat)
    returns (ok: bool, ghost ino: nat)
    requires v.OnDisk() && Inv(v.fs) && ftype != 2
    requires NoTree(node) && node.dtime == 0 && node.links == 1
    modifies v
    ensures ok ==> v.OnDisk() && Created(old(v.fs), v.fs, parent, name, ino, ftype)
    ensures ok ==> 1 <= ino <= |v.fs.inodes| && v.fs.inodes[ino - 1] == node
    ensures ok <==> Room(old(v.fs), parent, name, 0)
  {
    hide InvX, Counted, Lookup, FileBytes, Shape, Rep, Loaded, WithIBit, FileType, TreeCnt, Offered, IAlloc;
    PathZeroIsNoDir(v.fs, parent);
    ino := 0;
    var parentIno, rc, existing;
    ok, parentIno, rc, existing := Begin(v, parent, name);
    if !ok || rc != 0 { return false, 0; }
    ghost var fs0 := v.fs;
    if fs0.totI > 0 { InodeLeft(fs0); }
    var newIno := AllocInode(v);
    if newIno == 0 {
      assert fs0.totI == 0;
      return false, 0;
    }
    ino := newIno;
    InodeCounted(fs0, newIno - 1);
    InodeTaken(fs0, newIno);
    ghost var fs1, debt := v.fs, NO_DEBT.(newborn := newIno);
    assert Shape(fs0) by { ShapeOf(fs0, NO_DEBT); }
    Untouched(fs0, 0, fs1, NONE);
    PlainNode(fs1.blk, node);
    assert debt == NO_DEBT.(newborn := newIno, spare := {});
    PublishedFile(fs0, fs1, newIno, node, {});
    assert |fs1.inodes| == fs1.geo.Inodes() by { ShapeOf(fs1, debt); }
    ok := v.WriteInode(newIno, node);
    ok := ListChild(v, parentIno, newIno, ftype, name, fs0, parent);
    if !ok { return false, 0; }
  }

  lemma PlainNode(d: seq<Block>, node: Inode)
    requires NoTree(node) && node.dtime == 0 && node.links == 1
    ensures PlainInode(d, node, {})
  {}
}
