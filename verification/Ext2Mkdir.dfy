/** Making a directory. */
module Ext2Mkdir {
  import opened Sums
  import opened Ext2Layout
  import opened Ext2State
  import opened Ext2Frames
  import opened Ext2Steps
  import opened Ext2DirSteps
  import opened Ext2Records
  import opened Ext2Volume
  import opened Ext2Bitmaps
  import opened Ext2Engine
  import opened Ext2Alloc
  import opened Ext2FileMap
  import opened Ext2Dir
  import opened Ext2Entries
  import opened Ext2Ops

  // ---- link counts stay small ----

  lemma {:induction false} RecCntBound(recs: seq<Rec>, pos: nat, q: Query)
    requires |recs| == BS
    ensures pos <= BS ==> 8 * RecCnt(recs, pos, q) <= BS - pos
    ensures pos > BS ==> RecCnt(recs, pos, q) == 0
    decreases BS - pos
  {
    if RecFits(recs, pos) { RecCntBound(recs, pos + recs[pos].recLen, q); }
  }

  lemma {:induction false} DirCntBound(d: seq<Block>, i: Inode, q: Query, n: nat)
    requires n <= 12
    ensures DirCnt(d, i, q, n) <= n * 512
  {
    if n > 0 {
      DirCntBound(d, i, q, n - 1);
      if 0 < i.block[n - 1] < |d| { RecCntBound(d[i.block[n - 1]].recs, 0, q); }
    }
  }

  /** A link count never comes near the 16-bit limit. */
  lemma LinksBound(fs: Fs, debt: Debt, k: nat)
    requires InvX(fs, debt) && k < |fs.inodes| && Counted(fs, debt.newborn, k)
    ensures fs.inodes[k].links <= 6144
  {
    assert InodeOK(fs, debt, k);
    DirCntBound(fs.blk, fs.inodes[k], SubDirs, 12);
  }

  // ---- the new directory's block ----

  method DotRecs(self: nat, up: nat) returns (recs: seq<Rec>)
    ensures |recs| == BS && DotBlock(recs, self, up)
  {
    recs := seq(BS, _ => Rec(0, 0, 0, ""));
    recs := recs[0 := Rec(self, 12, 2, ".")];
    recs := recs[12 := Rec(up, BS - 12, 2, "..")];
  }

  /** Inode and block taken, block written: the directory can be published. */
  lemma DirPublished(fs0: Fs, fs1: Fs, b: nat, fs2: Fs, blk2: seq<Block>, ino: nat, child: Inode, p: nat)
    requires Shape(fs0) && Shape(fs1) && fs1.geo == fs0.geo && b < fs1.geo.blocks && ino >= 11
    requires Inv(fs0) && InvX(fs1, NO_DEBT.(newborn := ino))
    requires |fs1.inodes| == |fs0.inodes| && fs1.blk == fs0.blk && fs1.inodes == fs0.inodes && fs1.bits == fs0.bits
    requires !Counted(fs0, 0, ino - 1) && forall k: nat :: Counted(fs1, ino, k) == Counted(fs0, 0, k)
    requires b == Pick(fs1, 0) != 0 && fs2 == WithBit(fs1, b, true)
    requires SameBut(fs1.blk, blk2, {b}) && NewDir(blk2, child, b, ino - 1, p) && p >= 1
    requires p <= |fs0.inodes| && Counted(fs0, 0, p - 1)
    ensures ino <= |fs1.inodes| == |fs2.inodes|
    ensures var fs3 := fs2.(blk := blk2, inodes := fs2.inodes[ino - 1 := child]);
      Waiting(fs0, fs3, ino, NO_DEBT.(lone := ino, parent := p, uncounted := ino)) && fs3.inodes[ino - 1] == child
  {
    hide InvX, FileBytes, Lookup, IsReg, SameReading, Pick, WithBit, NewDir, OthersRead, BitsSet, SameBut, Geo.Valid, Counted, IsDir, TreeCnt, Misses;
    var debt, owed := NO_DEBT.(newborn := ino), NO_DEBT.(lone := ino, parent := p, uncounted := ino);
    assert Shape(fs0) && Shape(fs1) by { ShapeOf(fs0, NO_DEBT); ShapeOf(fs1, debt); }
    DirInvariant(fs1, b, fs2, blk2, ino, child, p);
    var fs3 := fs2.(blk := blk2, inodes := fs2.inodes[ino - 1 := child]);
    ShapeOf(fs3, owed);
    NowCounted(fs1, fs3, ino);
    FewInodes(fs1);
    Untouched(fs0, 0, fs1, NONE);
    NewBlockSteady(fs0, fs1, b, fs3);
    ReadTrans(fs0, fs1, ino, fs1.(blk := blk2), NONE);
    MoveInode(fs0, fs1.(blk := blk2), fs3, ino - 1);
  }

  lemma NewBlockSteady(fs0: Fs, fs1: Fs, b: nat, fs: Fs)
    requires Shape(fs0) && Shape(fs1) && fs1.blk == fs0.blk && fs1.bits == fs0.bits && fs1.geo == fs0.geo
    requires b == Pick(fs1, 0) != 0 && SameBut(fs1.blk, fs.blk, {b})
    ensures Steady(fs0, fs)
  {
    PickIsFree(fs1, 0);
    StillSteady(fs0, fs1, fs, {b});
  }

  lemma DirInvariant(fs1: Fs, b: nat, fs2: Fs, blk2: seq<Block>, ino: nat, child: Inode, p: nat)
    requires Shape(fs1) && b < fs1.geo.blocks && ino >= 11 && ino != p && p >= 1
    requires InvX(fs1, NO_DEBT.(newborn := ino))
    requires b == Pick(fs1, 0) != 0 && fs2 == WithBit(fs1, b, true)
    requires SameBut(fs1.blk, blk2, {b}) && NewDir(blk2, child, b, ino - 1, p)
    ensures Shape(fs2) && ino <= |fs1.inodes| && fs2.inodes == fs1.inodes && fs2.ibits == fs1.ibits && fs2.geo == fs1.geo
    ensures Used(fs1, ino - 1)
    ensures InvX(fs2.(blk := blk2, inodes := fs2.inodes[ino - 1 := child]), NO_DEBT.(lone := ino, parent := p, uncounted := ino))
    ensures OthersRead(fs1, ino, fs1.(blk := blk2), NONE)
  {
    hide InvX, FileBytes, Lookup, IsReg, SameReading, Pick, WithBit, NewDir, BitsSet, SameBut, Geo.Valid, OthersRead, IsDir, TreeCnt, Counted, Alloc;
    var debt := NO_DEBT.(newborn := ino);
    ShapeOf(fs1, debt);
    PickedBlock(fs1, debt, b);
    TakeBlocks(fs1, debt, fs2, {b});
    var debt2 := debt.(spare := {b});
    assert debt.(spare := debt.spare + {b}) == debt2;
    BitsOnly(fs1, fs2, {b}, ino);
    WriteSpare(fs2, debt2, blk2, {b});
    PublishDir(fs2.(blk := blk2), debt2, ino - 1, child, b, p - 1);
    assert debt2.(spare := debt2.spare - {b}, newborn := 0, lone := ino, parent := p, uncounted := ino) == NO_DEBT.(lone := ino, parent := p, uncounted := ino);
    NewbornUsed(fs1, debt);
    UnwrittenRead(fs1, ino, blk2, {b}, NONE);
  }

  lemma NowCounted(fs2: Fs, fs3: Fs, ino: nat)
    requires Shape(fs2) && Shape(fs3) && ino >= 1 && Used(fs2, ino - 1) && fs3.ibits == fs2.ibits && |fs3.inodes| == |fs2.inodes|
    ensures forall k: nat :: Counted(fs3, 0, k) == (Counted(fs2, ino, k) || k == ino - 1)
  {}

  /** An inode not in use at first may hold anything. */
  lemma MoveInode(fs0: Fs, fs1: Fs, fs3: Fs, k0: nat)
    requires OthersRead(fs0, 0, fs1, NONE) && fs3.blk == fs1.blk && |fs3.inodes| == |fs1.inodes| && !Counted(fs0, 0, k0)
    requires forall k: nat | k < |fs1.inodes| && k != k0 :: fs3.inodes[k] == fs1.inodes[k]
    ensures OthersRead(fs0, 0, fs3, NONE)
  {
    hide FileBytes, Lookup, IsDir, IsReg, Counted, Shape;
    forall k: nat | k < |fs0.inodes| && k != NONE && Counted(fs0, 0, k) ensures SameReading(fs0, fs3, k) {
      assert SameReading(fs0, fs1, k);
    }
  }

  /** The parent lists the child and then counts it. */
  lemma DirDone(fs0: Fs, fs3: Fs, fs4: Fs, parent: seq<string>, name: string, ino: nat)
    requires var p := PathTo(fs0, 2, parent);
      && Waiting(fs0, fs3, ino, NO_DEBT.(lone := ino, parent := p, uncounted := ino)) && DirIno(fs0, p) && Counted(fs0, 0, p - 1)
      && NameOK(name) && Find(fs0, p, name) == Missing && ino != p
    requires |fs4.inodes| == |fs3.inodes| && fs4.ibits == fs3.ibits && fs4.geo == fs3.geo
    requires var k := PathTo(fs0, 2, parent) - 1;
      && InvX(fs4, After(NO_DEBT.(lone := ino, parent := k + 1, uncounted := ino), k, 2)) && Listed(fs3, fs4, k, ino, 2, name)
      && OthersRead(fs3, 0, fs4, k)
    ensures var k := PathTo(fs0, 2, parent) - 1;
      var fs5 := fs4.(inodes := fs4.inodes[k := fs4.inodes[k].(links := fs4.inodes[k].links + 1)]);
      && Created(fs0, fs5.(usedD := DirCounted(fs5, ino)), parent, name, ino, 2)
      && (ino - 1) / IPG < |fs5.usedD| && fs5.usedD[(ino - 1) / IPG] < IPG
  {
    hide InvX, Lookup, FileBytes, Shape, SameReading, PathTo, FileType;
    var k := PathTo(fs0, 2, parent) - 1;
    var debt3 := NO_DEBT.(lone := ino, parent := k + 1, uncounted := ino);
    assert Shape(fs0) && Shape(fs3) && Shape(fs4) by {
      ShapeOf(fs0, NO_DEBT);
      ShapeOf(fs3, debt3);
      ShapeOf(fs4, After(debt3, k, 2));
    }
    AppendReady(fs0, fs3, k + 1, ino, 2, name, debt3);
    CountedByBits(fs3, fs4, 0);
    Weaker(fs0, fs3, k);
    ReadTrans(fs0, fs3, 0, fs4, k);
    BumpLinks(fs4, After(debt3, k, 2), k);
    var i2: Inode := fs4.inodes[k].(links := fs4.inodes[k].links + 1);
    var fs5 := fs4.(inodes := fs4.inodes[k := i2]);
    var counted := NO_DEBT.(uncounted := ino);
    assert After(debt3, k, 2).(parent := 0, grown := 0) == counted;
    assert Shape(fs5) by { ShapeOf(fs5, counted); }
    PayCount(fs5, ino);
    var fs6 := fs5.(usedD := DirCounted(fs5, ino));
    assert Shape(fs6) by { ShapeOf(fs6, NO_DEBT); }
    CountedByBits(fs4, fs6, 0);
    OthersKeptBy(fs0, 0, fs4, fs6, k);
    SameLookups(fs4.blk, fs4.inodes[k], i2);
  }

  /** The group counts its new directory; it has fewer than it has inodes. */
  lemma PayCount(fs: Fs, ino: nat)
    requires InvX(fs, NO_DEBT.(uncounted := ino)) && 1 <= ino <= |fs.inodes|
    ensures (ino - 1) / IPG < |fs.usedD| && fs.usedD[(ino - 1) / IPG] < IPG
    ensures InvX(fs.(usedD := DirCounted(fs, ino)), NO_DEBT)
  {
    hide LinksMatch;
    var debt, fs2, g := NO_DEBT.(uncounted := ino), fs.(usedD := DirCounted(fs, ino)), (ino - 1) / IPG;
    DirsBound(fs, 0, g);
    assert g < fs.geo.groups && Uncounted(debt, g) && Shape(fs2);
    hide TreeCnt, DirCnt, DirShape, Geo.Valid, Geo.IsMeta, KnownType, NoTree, Own, Refs, Clear, Total, GroupDirs, FileType;
    UntouchedAlike(fs, 0, fs2, 0);
    assert Alike(fs, 0, fs2, 0, 1);
    forall b: nat ensures BlocksMove(fs, debt, fs2, NO_DEBT, 1, b) { assert Alloc(fs, b) == Alloc(fs2, b); }
    forall x: nat | x > 0 ensures LinksMove(fs, debt, fs2, NO_DEBT, 1, x) { LinksOfSame(fs, fs2, 0, x); }
    StepInode(fs, debt, fs2, NO_DEBT, 1);
    forall j: nat | j < 10 ensures IAlloc(fs2, j) { assert IAlloc(fs, j); }
    Step(fs, debt, fs2, NO_DEBT, 1);
  }

  lemma DirsBound(fs: Fs, n: nat, g: nat)
    requires Shape(fs)
    ensures GroupDirs(fs, n, g) <= IPG
  {
    hide Shape, CountsAsDir, Sum;
    SumBound(IPG, DirTerm(fs, n, g), 1);
  }

  lemma SameLookups(d: seq<Block>, i: Inode, i2: Inode)
    requires i.block == i2.block
    ensures forall nm: string :: Lookup(d, i, nm) == Lookup(d, i2, nm)
  {
    forall nm: string ensures Lookup(d, i, nm) == Lookup(d, i2, nm) { SameLookup(d, i, i2, nm, 0); }
  }

  lemma {:induction false} SameLookup(d: seq<Block>, i: Inode, i2: Inode, nm: string, j: nat)
    requires i.block == i2.block && j <= 12
    ensures Lookup(d, i, nm, j) == Lookup(d, i2, nm, j)
    decreases 12 - j
  {
    if j < 12 { SameLookup(d, i, i2, nm, j + 1); }
  }

  /** ext2_mkdir_at: an existing directory of that name is success without a change. */
  method Mkdir(v: Volume, parent: seq<string>, name: string, mode: nat) returns (ok: bool, ghost ino: nat)
    requires v.OnDisk() && Inv(v.fs)
    modifies v
    ensures ok ==> v.OnDisk() && Inv(v.fs)
    ensures ok ==> (v.fs == old(v.fs) && exists t :: Find(v.fs, PathTo(v.fs, 2, parent), name) == Entry(ino, t))
                   || (Created(old(v.fs), v.fs, parent, name, ino, 2) && OnlyDots(v.fs, ino, PathTo(old(v.fs), 2, parent))
                       && 1 <= ino <= |v.fs.inodes| && EmptyDir(v.fs.inodes[ino - 1], mode)
                       && v.fs.usedD == DirCounted(old(v.fs), ino))
    ensures ok ==> 1 <= ino <= |v.fs.inodes| && IsDir(v.fs.inodes[ino - 1])
    ensures ok <==> Room(old(v.fs), parent, name, 1) || DirThere(old(v.fs), parent, name)
  {
    hide InvX, Counted, Lookup, FileBytes, Shape, Rep, Loaded, WithIBit, WithBit, Pick, FileType, TreeCnt, PathTo;
    hide Created, Waiting;
    PathZeroIsNoDir(v.fs, parent);
    ino := 0;
    var parentIno, rc, existing;
    ok, parentIno, rc, existing := Begin(v, parent, name);
    if !ok { return false, 0; }
    ghost var fs0 := v.fs;
    assert |fs0.inodes| == fs0.geo.Inodes() && Shape(fs0) by { ShapeOf(fs0, NO_DEBT); }
    if rc == 1 {
      var ei;
      ok, ei := v.ReadInode(existing);
      return ok && IsDir(ei), existing;
    }
    if rc < 0 { return false, 0; }
    ok, ino := MakeDir(v, parentIno, name, mode, parent);
  }

  /** The name is that of a directory already. */
  ghost predicate DirThere(fs: Fs, parent: seq<string>, name: string) {
    var found := Find(fs, PathTo(fs, 2, parent), name);
    fs.geo.groups <= MAX_GROUPS && found.Entry? && 1 <= found.ino <= |fs.inodes| && IsDir(fs.inodes[found.ino - 1])
  }

  /** A directory of one block, with the permissions asked for, or 0755 when none are. */
  predicate EmptyDir(i: Inode, mode: nat) {
    && i.mode == 0x4000 + (if mode == 0 then 0x1ED else mode % 0x200)
    && i.size == 4096 && i.blocks == 8 && i.links == 2 && i.dtime == 0
  }

  /** i_mode of a new directory */
  function DirMode(mode: nat): (m: nat) {
    0x4000 + (if mode != 0 then mode % 512 else 0x1ED)
  }

  lemma DirModeIsDir(i: Inode, mode: nat)
    requires i.mode == DirMode(mode)
    ensures IsDir(i)
  {}

  lemma ParentDiffers(fs0: Fs, p: nat, ino: nat)
    requires Shape(fs0) && p >= 1 && ino >= 1 && Counted(fs0, 0, p - 1) && !Counted(fs0, 0, ino - 1)
    ensures p != ino
  {}

  lemma InodeCountsOnly(fs: Fs, k: nat)
    requires Shape(fs) && k < |fs.inodes|
    ensures WithIBit(fs, k, true).usedD == fs.usedD
  {}

  lemma OneTaken(fs: Fs, b: nat)
    requires Shape(fs) && b < fs.geo.blocks && fs.totB > 0
    ensures WithBit(fs, b, true).totB == fs.totB - 1 && WithBit(fs, b, true).usedD == fs.usedD
  {}

  /** The allocating part of mkdir, the name being free. */
  method MakeDir(v: Volume, parentIno: nat, name: string, mode: nat, ghost parent: seq<string>)
    returns (ok: bool, ghost ino: nat)
    requires v.Synced() && Inv(v.fs) && NameOK(name) && parentIno == PathTo(v.fs, 2, parent)
    requires 1 <= parentIno <= |v.fs.inodes| && Counted(v.fs, 0, parentIno - 1)
    requires DirIno(v.fs, parentIno) && Find(v.fs, parentIno, name) == Missing
    modifies v
    ensures ok ==> v.OnDisk() && Inv(v.fs) && Created(old(v.fs), v.fs, parent, name, ino, 2)
    ensures ok ==> 1 <= ino <= |v.fs.inodes| && IsDir(v.fs.inodes[ino - 1])
    ensures ok ==> OnlyDots(v.fs, ino, parentIno) && v.fs.usedD == DirCounted(old(v.fs), ino)
    ensures ok ==> EmptyDir(v.fs.inodes[ino - 1], mode)
    ensures ok <==>
      && old(v.fs).totI > 0 && old(v.fs).totB > 0
      && (HasSlack(old(v.fs), parentIno - 1, name) || (CanGrow(old(v.fs), parentIno - 1) && old(v.fs).totB > 1))
  {
    hide InvX, Counted, Lookup, FileBytes, Shape, Rep, Loaded, WithIBit, WithBit, Pick, FileType, TreeCnt, PathTo, Offered,
      IAlloc;
    ino := 0;
    ghost var fs0 := v.fs;
    if fs0.totI > 0 { InodeLeft(fs0); }
    assert |fs0.inodes| == fs0.geo.Inodes() && Shape(fs0) by { ShapeOf(fs0, NO_DEBT); }
    var newIno := AllocInode(v);
    if newIno == 0 {
      assert fs0.totI == 0;
      return false, 0;
    }
    ino := newIno;
    InodeCounted(fs0, newIno - 1);
    InodeTaken(fs0, newIno);
    InodeCountsOnly(fs0, newIno - 1);
    ParentDiffers(fs0, parentIno, newIno);
    ghost var fs1 := v.fs;
    CanAllocate(fs1, NO_DEBT.(newborn := newIno));
    RoomLeft(fs1, NO_DEBT.(newborn := newIno));
    var dataBlk := AllocBlock(v);
    if dataBlk == 0 { return false, 0; }
    ghost var fs2 := v.fs;
    OneTaken(fs1, dataBlk);
    var child: Inode := InodeFields(DirMode(mode), BS, 0, 2, BS / 512, NO_BLOCKS[0 := dataBlk]);
    DirModeIsDir(child, mode);
    WriteChildDir(v, newIno, child, dataBlk, parentIno, fs1);
    ghost var fs3 := v.fs;
    DirPublished(fs0, fs1, dataBlk, fs2, fs3.blk, newIno, child, parentIno);
    ok := FinishDir(v, parentIno, newIno, name, child, dataBlk, fs0, parent);
    if !ok { return false, 0; }
  }

  /** Inode first, then its block with "." and "..". */
  method WriteChildDir(v: Volume, ino: nat, child: Inode, b: nat, parentIno: nat, ghost fs1: Fs)
    requires Shape(fs1) && b < fs1.geo.blocks
    requires v.Synced() && InvX(fs1, NO_DEBT.(newborn := ino)) && b == Pick(fs1, 0) != 0 && v.fs == WithBit(fs1, b, true)
    requires 1 <= ino <= |fs1.inodes| && IsDir(child)
    requires child == InodeFields(child.mode, BS, 0, 2, BS / 512, NO_BLOCKS[0 := b])
    modifies v`dev, v`fs
    ensures v.Synced() && |old(v.fs).inodes| == |fs1.inodes|
    ensures v.fs == old(v.fs).(blk := v.fs.blk, inodes := old(v.fs).inodes[ino - 1 := child])
    ensures SameBut(fs1.blk, v.fs.blk, {b}) && NewDir(v.fs.blk, child, b, ino - 1, parentIno)
  {
    hide InvX, Pick, WithBit, FileType, Stored, Counters;
    ShapeOf(fs1, NO_DEBT.(newborn := ino));
    PickedBlock(fs1, NO_DEBT.(newborn := ino), b);
    BitsOnly(fs1, v.fs, {b}, 0);
    var ok := v.WriteInode(ino, child);
    var recs := DotRecs(ino, parentIno);
    LoadedOver(v.sb, v.gd, v.fs);
    assert |v.dev| == |v.fs.blk| by { DeviceLen(v.dev, v.fs); }
    v.PutRecs(b, recs);
  }

  /** List the child, count it in the parent, count the directory in its group. */
  method FinishDir(v: Volume, parentIno: nat, newIno: nat, name: string, child: Inode, ghost b: nat,
                   ghost fs0: Fs, ghost parent: seq<string>) returns (ok: bool)
    requires v.Synced() && Waiting(fs0, v.fs, newIno, NO_DEBT.(lone := newIno, parent := parentIno, uncounted := newIno))
    requires parentIno == PathTo(fs0, 2, parent) && 1 <= parentIno <= |fs0.inodes| && Counted(fs0, 0, parentIno - 1)
    requires NameOK(name) && DirIno(fs0, parentIno) && Find(fs0, parentIno, name) == Missing && newIno != parentIno
    requires v.fs.inodes[newIno - 1] == child && NewDir(v.fs.blk, child, b, newIno - 1, parentIno)
    modifies v`dev, v`fs, v`sb, v`gd
    ensures ok ==> v.OnDisk() && Created(fs0, v.fs, parent, name, newIno, 2)
    ensures ok ==> IsDir(v.fs.inodes[newIno - 1]) && v.fs.inodes[newIno - 1] == child
    ensures ok <==> HasSlack(fs0, parentIno - 1, name) || (CanGrow(fs0, parentIno - 1) && old(v.fs).totB > 0)
    ensures ok ==> OnlyDots(v.fs, newIno, parentIno) && newIno > 0 && v.fs.usedD == DirCounted(old(v.fs), newIno)
  {
    hide InvX, Counted, Lookup, FileBytes, Shape, IsReg, Stored, Counters, Loaded, FileType, PathTo, Created;
    ghost var fs3, debt3, k := v.fs, NO_DEBT.(lone := newIno, parent := parentIno, uncounted := newIno), parentIno - 1;
    assert Shape(fs0) && Shape(fs3) by { ShapeOf(fs0, NO_DEBT); ShapeOf(fs3, debt3); }
    FewInodes(fs0);
    ReadMine(fs0, fs3, k);
    SameSlack(fs0, fs3, k, name);
    DotLookups(fs3.blk, child, b, newIno, parentIno);
    AppendReady(fs0, fs3, parentIno, newIno, 2, name, debt3);
    ok := AppendDirent(v, parentIno, newIno, 2, name, debt3);
    if !ok { return false; }
    ghost var fs4 := v.fs;
    ShapeOf(fs4, After(debt3, k, 2));
    ReadNew(fs3, fs4, k, newIno - 1, fs0);
    CountedByBits(fs3, fs4, 0);
    LinksBound(fs4, After(debt3, k, 2), k);
    var got, parentInode := v.ReadInode(parentIno);
    got := v.WriteInode(parentIno, parentInode.(links := Inc16(parentInode.links)));
    DirDone(fs0, fs3, fs4, parent, name, newIno);
    CountDir(v, newIno);
  }

  lemma ReadNew(fs3: Fs, fs4: Fs, k: nat, k2: nat, fs0: Fs)
    requires OthersRead(fs3, 0, fs4, k) && k2 != k && k2 < |fs3.inodes| && Counted(fs3, 0, k2)
    ensures SameReading(fs3, fs4, k2)
  {}

  lemma DotLookups(d: seq<Block>, i: Inode, b: nat, ino: nat, up: nat)
    requires ino > 0 && up > 0 && NewDir(d, i, b, ino - 1, up)
    ensures forall nm: string ::
      Lookup(d, i, nm) == if nm == "." then Entry(ino, 2) else if nm == ".." then Entry(up, 2) else Missing
  {
    var recs := d[b].recs;
    forall nm: string
      ensures Lookup(d, i, nm) == if nm == "." then Entry(ino, 2) else if nm == ".." then Entry(up, 2) else Missing
    {
      assert "." != "..";
      assert FindFrom(recs, BS, nm) == Rec(0, 0, 0, "");
      assert FindFrom(recs, 12, nm) == if nm == ".." then recs[12] else Rec(0, 0, 0, "");
      assert FindFrom(recs, 0, nm) == if nm == "." then recs[0] else FindFrom(recs, 12, nm);
      assert Lookup(d, i, nm, 1) == Missing;
    }
  }

  lemma CountLoaded(sb: Super, gd: seq<Group>, fs: Fs, ino: nat)
    requires Loaded(sb, gd, fs) && 1 <= ino <= fs.geo.Inodes()
    requires (ino - 1) / IPG < |fs.usedD| && fs.usedD[(ino - 1) / IPG] < IPG
    ensures var ig := (ino - 1) / IPG;
      ig < |gd| && Loaded(sb, gd[ig := gd[ig].(usedDirs := Inc16(gd[ig].usedDirs))], fs.(usedD := DirCounted(fs, ino)))
  {
    var ig := (ino - 1) / IPG;
    assert DescIs(gd[ig], fs, ig);
  }

  /** bg_used_dirs_count of the child's group goes up. */
  method CountDir(v: Volume, ino: nat)
    requires v.Synced() && 1 <= ino <= v.fs.geo.Inodes()
    requires (ino - 1) / IPG < |v.fs.usedD| && v.fs.usedD[(ino - 1) / IPG] < IPG
    modifies v`dev, v`gd, v`fs
    ensures v.Synced() && v.fs == old(v.fs).(usedD := DirCounted(old(v.fs), ino))
  {
    hide Stored, Counters, SuperIs, DescIs;
    var ig := (ino - 1) / IPG;
    CountLoaded(v.sb, v.gd, v.fs, ino);
    v.gd := v.gd[ig := v.gd[ig].(usedDirs := Inc16(v.gd[ig].usedDirs))];
    EnoughBlocks(v.fs);
    FirstPlaces(v.fs);
    DeviceLen(v.dev, v.fs);
    ghost var was, fs2 := v.dev, v.fs.(usedD := DirCounted(v.fs, ino));
    v.StoreMeta();
    CountersWritten(was, v.fs, v.sb, v.gd, fs2, v.dev);
    v.fs := fs2;
  }
}
