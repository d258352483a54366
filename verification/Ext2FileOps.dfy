/** Operations on an existing file: truncate, rewrite, unlink, read. */
module Ext2FileOps {
  import opened Ext2Layout
  import opened Ext2State
  import opened Ext2Frames
  import opened Ext2Steps
  import opened Ext2DirSteps
  import opened Ext2Records
  import opened Ext2Volume
  import opened Ext2Bitmaps
  import opened Ext2Engine
  import opened Ext2Alloc
  import opened Ext2FileMap
  import opened Ext2Files
  import opened Ext2Free
  import opened Ext2Dir
  import opened Ext2Entries
  import opened Ext2Counts
  import opened Ext2Ops

  /** The path leads nowhere, to a directory, or to a regular file: what truncate and rewrite are for. */
  ghost predicate FileOrDir(fs: Fs, ino: nat) {
    1 <= ino <= |fs.inodes| ==> IsReg(fs.inodes[ino - 1]) || IsDir(fs.inodes[ino - 1])
  }

  /** ino is a regular file in use. */
  ghost predicate FileIno(fs: Fs, ino: nat) {
    Shape(fs) && 1 <= ino <= |fs.inodes| && Counted(fs, 0, ino - 1) && IsReg(fs.inodes[ino - 1])
  }

  lemma FileTree(fs: Fs, debt: Debt, ino: nat)
    requires InvX(fs, debt) && FileIno(fs, ino) && ino != debt.newborn
    ensures TreeInData(fs, fs.inodes[ino - 1])
    ensures TreeBlocks(fs, fs.inodes[ino - 1]) == TreeSet(fs, ino - 1)
    ensures fs.inodes[ino - 1].block[14] == 0 && ino >= 11
  {
    hide LinksMatch, BlockCounts, InodeCounts, Ownership, SlotsCnt;
    assert InodeOK(fs, debt, ino - 1);
    RegOnly(fs.inodes[ino - 1]);
    forall b: nat
      ensures SlotsCnt(fs.blk, fs.inodes[ino - 1], b, 15) == TreeCnt(fs.blk, fs.inodes[ino - 1], b)
      ensures SlotsCnt(fs.blk, fs.inodes[ino - 1], b, 15) > 0 ==> InData(fs, b)
    {
      TreeIsOurs(fs, debt, ino - 1, b);
      ZeroTaken(fs, debt);
      ZeroNeverMet(fs.blk, fs.inodes[ino - 1], 15);
    }
  }

  lemma {:induction false} ZeroNeverMet(d: seq<Block>, i: Inode, n: nat)
    requires n <= 15
    ensures SlotsCnt(d, i, 0, n) == 0
  {
    if n > 0 {
      ZeroNeverMet(d, i, n - 1);
      ZeroNotWalked(d, i.block[n - 1], Depth(n - 1));
    }
  }

  lemma {:induction false} ZeroNotWalked(d: seq<Block>, blk: nat, depth: nat)
    ensures WalkCnt(d, blk, depth, 0) == 0
    decreases depth, 0
  {
    if depth > 0 && 0 < blk < |d| { ZeroNotInPtrs(d, d[blk].ptrs, depth - 1, PTRS); }
  }

  lemma {:induction false} ZeroNotInPtrs(d: seq<Block>, ptrs: seq<nat>, depth: nat, n: nat)
    requires n <= |ptrs|
    ensures PtrsCnt(d, ptrs, depth, 0, n) == 0
    decreases depth, n + 1
  {
    if n > 0 {
      ZeroNotInPtrs(d, ptrs, depth, n - 1);
      ZeroNotWalked(d, ptrs[n - 1], depth);
    }
  }

  // ---- truncate ----

  function Emptied(file: Inode): (r: Inode)
    ensures r.mode == file.mode
  {
    file.(block := NO_BLOCKS, size := 0, blocks := 0)
  }

  lemma EmptyTree(d: seq<Block>, i: Inode)
    requires i.block == NO_BLOCKS
    ensures forall b: nat :: TreeCnt(d, i, b) == 0
  {
    forall b: nat ensures TreeCnt(d, i, b) == 0 { EmptySlots(d, i, b, 15); }
  }

  /** The inode and the bitmaps after a truncation. */
  lemma TruncateStep(fs0: Fs, fs1: Fs, ino: nat)
    requires Inv(fs0) && FileIno(fs0, ino)
    requires BitsSet(fs0, fs1, TreeBlocks(fs0, fs0.inodes[ino - 1]), false)
    ensures var fs2 := fs1.(inodes := fs1.inodes[ino - 1 := Emptied(fs0.inodes[ino - 1])]);
      && fs1.inodes == fs0.inodes && fs2.blk == fs0.blk && fs2.geo == fs0.geo && fs2.ibits == fs0.ibits
      && Inv(fs2) && OthersRead(fs0, 0, fs2, ino - 1)
  {
    hide InvX, TreeCnt, TreeBlocks, BlockCounts, FileType, Geo.IsMeta, Geo.Valid;
    var k, file := ino - 1, fs0.inodes[ino - 1];
    var ni := Emptied(file);
    var t := TreeSet(fs0, k);
    FileTree(fs0, NO_DEBT, ino);
    EmptyTree(fs0.blk, ni);
    RetargetReady(fs0, ino);
    RetargetFile(fs0, NO_DEBT, k, ni, {});
    var fsA := fs0.(inodes := fs0.inodes[k := ni]);
    var fs2 := fs1.(inodes := fs1.inodes[k := ni]);
    assert NO_DEBT.(spare := NO_DEBT.spare + t - {}) == NO_DEBT.(spare := t);
    BitsOverInodes(fs0, fs1, t, k, ni);
    GiveBlocks(fsA, NO_DEBT.(spare := t), fs2, t);
    assert NO_DEBT.(spare := t - t) == NO_DEBT;
    Untouched(fs0, 0, fs2, k);
  }

  lemma BitsOverInodes(fs0: Fs, fs1: Fs, t: set<nat>, k: nat, ni: Inode)
    requires BitsSet(fs0, fs1, t, false) && k < |fs0.inodes|
    ensures BitsSet(fs0.(inodes := fs0.inodes[k := ni]), fs1.(inodes := fs1.inodes[k := ni]), t, false)
  {}

  /** A file in use may be given any other regular contents. */
  lemma RetargetReady(fs: Fs, ino: nat)
    requires Inv(fs) && FileIno(fs, ino)
    ensures var file := fs.inodes[ino - 1]; KnownType(file) && file.dtime == 0 && file.links == 1 && !IsDir(file)
    ensures KnownType(Emptied(fs.inodes[ino - 1])) && !IsDir(Emptied(fs.inodes[ino - 1]))
  {
    assert InodeOK(fs, NO_DEBT, ino - 1);
  }

  /** ext2_truncate_at with size 0 */
  method Truncate(v: Volume, path: seq<string>) returns (ok: bool)
    requires v.OnDisk() && Inv(v.fs) && FileOrDir(v.fs, PathTo(v.fs, 2, path))
    modifies v
    ensures v.OnDisk() && Inv(v.fs)
    ensures !ok ==> v.fs == old(v.fs)
    ensures ok <==> FileIno(old(v.fs), PathTo(old(v.fs), 2, path)) && old(v.fs).geo.groups <= MAX_GROUPS
    ensures ok ==> var ino := PathTo(old(v.fs), 2, path);
      && v.fs.inodes == old(v.fs).inodes[ino - 1 := Emptied(old(v.fs).inodes[ino - 1])]
      && v.fs.blk == old(v.fs).blk && v.fs.ibits == old(v.fs).ibits && v.fs.geo == old(v.fs).geo
      && BitsSet(old(v.fs), v.fs.(inodes := old(v.fs).inodes), TreeBlocks(old(v.fs), old(v.fs).inodes[ino - 1]), false)
      && OthersRead(old(v.fs), 0, v.fs, ino - 1)
      && v.fs.inodes[ino - 1].size == 0 && v.fs.inodes[ino - 1].blocks == 0
      && v.fs.inodes[ino - 1].mode == old(v.fs).inodes[ino - 1].mode
  {
    hide InvX, Counted, Rep, Loaded, TreeBlocks, TreeInData, OthersRead, BitsSet, FileType, PathTo;
    ok := v.LoadMeta();
    if !ok { return false; }
    ghost var fs0 := v.fs;
    var ino;
    ok, ino := Resolve(v, path);
    if !ok { NowhereIsNoFile(fs0); return false; }
    assert |fs0.inodes| == fs0.geo.Inodes() && Shape(fs0) by { ShapeOf(fs0, NO_DEBT); }
    var file;
    ok, file := v.ReadInode(ino);
    if IsDir(file) { RegOrDir(file); return false; }
    FileTree(fs0, NO_DEBT, ino);
    if file.block[14] != 0 { return false; }
    WriteReady(fs0, NO_DEBT);
    ok := FreeDataBlocks(v, file);
    ghost var fs1 := v.fs;
    TruncateStep(fs0, fs1, ino);
    ok := v.WriteInode(ino, Emptied(file));
    assert v.fs.(inodes := fs0.inodes) == fs1;
  }

  lemma NowhereIsNoFile(fs: Fs)
    ensures !FileIno(fs, 0)
  {}

  lemma RegOrDir(i: Inode)
    requires IsDir(i)
    ensures !IsReg(i)
  {}

  // ---- rewrite ----

  lemma WriteStep(fs1: Fs, fs2: Fs, ino: nat, file: Inode, data: seq<Byte>, t: set<nat>)
    requires Inv(fs1) && FileIno(fs1, ino) && fs1.inodes[ino - 1].block == NO_BLOCKS
    requires Wrote(fs1, fs2, t) && HasContents(fs2.blk, fs1.inodes[ino - 1], file, data, t)
    ensures var fs3 := fs2.(inodes := fs2.inodes[ino - 1 := file]);
      Inv(fs3) && FileIno(fs3, ino) && fs3.geo == fs1.geo && fs3.ibits == fs1.ibits && OthersRead(fs1, 0, fs3, ino - 1)
    ensures fs2.inodes == fs1.inodes && FileBytes(fs2.blk, file) == data
  {
    hide InvX, Wrote, TreeCnt, FileBytes, FileType, Geo.IsMeta, Geo.Valid;
    var k := ino - 1;
    WroteStep(fs1, NO_DEBT, fs2, t, k);
    assert NO_DEBT.(spare := NO_DEBT.spare + t) == NO_DEBT.(spare := t);
    RetargetReady(fs1, ino);
    FileTree(fs1, NO_DEBT, ino);
    EmptyTree(fs2.blk, fs1.inodes[k]);
    assert TreeSet(fs2, k) == {};
    KindByMode(fs1.inodes[k], file);
    RetargetFile(fs2, NO_DEBT.(spare := t), k, file, t);
    assert NO_DEBT.(spare := t).(spare := t + {} - t) == NO_DEBT;
    OthersKeptBy(fs1, 0, fs2, fs2.(inodes := fs2.inodes[k := file]), k);
    CountedByBits(fs1, fs2.(inodes := fs2.inodes[k := file]), 0);
  }

  /** The bitmaps of fs are those of fs0 with the blocks of gone freed and then the blocks of got taken. */
  ghost predicate Exchanged(fs0: Fs, fs: Fs, gone: set<nat>, got: set<nat>) {
    && Shape(fs0) && Shape(fs) && fs.geo == fs0.geo
    && (forall g, l | 0 <= g < fs.geo.groups && 0 <= l < BPG ::
          fs.bits[g][l] == if g * BPG + l in got then true else if g * BPG + l in gone then false else fs0.bits[g][l])
    && (forall b | b in got :: Alloc(fs0, b) ==> b in gone)
  }

  lemma NoTreeBlocks(fs: Fs, i: Inode)
    requires Shape(fs) && i.block == NO_BLOCKS
    ensures TreeBlocks(fs, i) == {}
  {
    forall b: nat ensures SlotsCnt(fs.blk, i, b, 15) == 0 { EmptySlots(fs.blk, i, b, 15); }
  }

  lemma WroteFree(fs1: Fs, fs2: Fs, t: set<nat>)
    requires Wrote(fs1, fs2, t)
    ensures forall b | b in t :: b < fs1.geo.blocks == fs2.geo.blocks && !Alloc(fs1, b)
  {}

  lemma Refilled(fs0: Fs, fs1: Fs, fs2: Fs, fs3: Fs, gone: set<nat>, t: set<nat>)
    requires (fs1 == fs0 && gone == {}) || BitsSet(fs0, fs1.(inodes := fs0.inodes), gone, false)
    requires Wrote(fs1, fs2, t) && fs3 == fs2.(inodes := fs3.inodes) && |fs3.inodes| == |fs2.inodes|
    requires Shape(fs0) && forall b | b in t :: !Alloc(fs1, b)
    ensures Exchanged(fs0, fs3, gone, t)
  {
    hide BlockCounts, SameBut, FreeFor;
    forall b | b in t ensures Alloc(fs0, b) ==> b in gone {
      if fs1 != fs0 { AllocAfter(fs0, fs1.(inodes := fs0.inodes), gone, false); }
    }
  }

  lemma TooLong(data: seq<Byte>)
    requires |data| > 0xFFFF_FFFF
    ensures !FitsInFile(data)
  {}

  /** Truncation gives back as many blocks as the tree had. */
  lemma FreedTotal(fs0: Fs, fs1: Fs, ino: nat)
    requires Inv(fs0) && FileIno(fs0, ino) && |fs1.inodes| == |fs0.inodes|
    requires BitsSet(fs0, fs1.(inodes := fs0.inodes), TreeBlocks(fs0, fs0.inodes[ino - 1]), false)
    ensures fs1.totB == fs0.totB + |TreeBlocks(fs0, fs0.inodes[ino - 1])|
  {
    hide TreeBlocks, TreeCnt, Ownership, Inodes, LinksMatch, InodeCounts, FileType, Shape, Alloc, BlockCounts, Counted;
    FileTree(fs0, NO_DEBT, ino);
    forall b | b in TreeBlocks(fs0, fs0.inodes[ino - 1]) ensures Alloc(fs0, b) { TreeIsOurs(fs0, NO_DEBT, ino - 1, b); }
    GivenToTotal(fs0, fs1.(inodes := fs0.inodes), TreeBlocks(fs0, fs0.inodes[ino - 1]));
  }

  /** ext2_write_existing_at */
  method WriteExisting(v: Volume, path: seq<string>, data: seq<Byte>) returns (ok: bool)
    requires v.OnDisk() && Inv(v.fs) && FileOrDir(v.fs, PathTo(v.fs, 2, path))
    modifies v
    ensures ok ==> v.OnDisk() && Inv(v.fs) && FileIno(old(v.fs), PathTo(old(v.fs), 2, path))
    ensures ok ==> var ino := PathTo(old(v.fs), 2, path);
      && FileIno(v.fs, ino) && FileBytes(v.fs.blk, v.fs.inodes[ino - 1]) == data
      && v.fs.inodes[ino - 1].mode == old(v.fs).inodes[ino - 1].mode && v.fs.inodes[ino - 1].size == |data|
      && v.fs.geo == old(v.fs).geo && v.fs.ibits == old(v.fs).ibits
      && OthersRead(old(v.fs), 0, v.fs, ino - 1)
      && Exchanged(old(v.fs), v.fs, TreeBlocks(old(v.fs), old(v.fs).inodes[ino - 1]), TreeBlocks(v.fs, v.fs.inodes[ino - 1]))
      && BlocksRight(v.fs, v.fs.inodes[ino - 1])
    ensures var ino := PathTo(old(v.fs), 2, path);
      ok <==> old(v.fs).geo.groups <= MAX_GROUPS && FitsInFile(data) && FileIno(old(v.fs), ino)
              && BlocksFor(data) <= old(v.fs).totB + |TreeBlocks(old(v.fs), old(v.fs).inodes[ino - 1])|
  {
    hide Shape, Alloc, NeedBlocks, BlocksFor, FitsInFile;
    hide InvX, Counted, Rep, Loaded, OthersRead, BitsSet, FileType, PathTo, TreeBlocks, Lookup, FileBytes, Exchanged,
      BlocksRight;
    if |data| > 0xFFFF_FFFF {
      TooLong(data);
      return false;
    }
    ok := v.LoadMeta();
    if !ok { return false; }
    ghost var fs0 := v.fs;
    var ino;
    ok, ino := Resolve(v, path);
    if !ok {
      NowhereIsNoFile(fs0);
      return false;
    }
    assert |fs0.inodes| == fs0.geo.Inodes() && Shape(fs0) by { ShapeOf(fs0, NO_DEBT); }
    var file;
    ok, file := v.ReadInode(ino);
    if IsDir(file) {
      RegOrDir(file);
      return false;
    }
    FileTree(fs0, NO_DEBT, ino);
    if file.block[14] != 0 { return false; }
    var ownsBlocks := file.blocks != 0;
    if !ownsBlocks {
      var i := 0;
      while i < 15 && !ownsBlocks
        invariant 0 <= i <= 15 && (!ownsBlocks ==> forall x | 0 <= x < i :: file.block[x] == 0)
      {
        if file.block[i] != 0 { ownsBlocks := true; }
        i := i + 1;
      }
    }
    if ownsBlocks || file.size != 0 {
      ok := Truncate(v, path);
      if !ok { return false; }
      ok := v.LoadMeta();
      if !ok { return false; }
      ok, file := v.ReadInode(ino);
      FreedTotal(fs0, v.fs, ino);
    } else {
      assert file.block == NO_BLOCKS;
      NoTreeBlocks(fs0, file);
      Untouched(fs0, 0, fs0, ino - 1);
    }
    assert FileIno(v.fs, ino) by {
      ShapeOf(v.fs, NO_DEBT);
      StillFile(fs0, v.fs, ino);
    }
    ok := Refill(v, ino, file, data, fs0);
  }

  /** The file being empty: allocate, write, and store the inode. */
  method Refill(v: Volume, ino: nat, file: Inode, data: seq<Byte>, ghost fs0: Fs) returns (ok: bool)
    requires v.Synced() && Inv(fs0) && Inv(v.fs) && FileIno(fs0, ino) && FileIno(v.fs, ino)
    requires file == v.fs.inodes[ino - 1] && file.block == NO_BLOCKS
    requires v.fs.geo == fs0.geo && v.fs.ibits == fs0.ibits && OthersRead(fs0, 0, v.fs, ino - 1)
    requires (v.fs == fs0 && TreeBlocks(fs0, fs0.inodes[ino - 1]) == {})
      || BitsSet(fs0, v.fs.(inodes := fs0.inodes), TreeBlocks(fs0, fs0.inodes[ino - 1]), false)
    modifies v
    ensures ok ==> v.OnDisk() && Inv(v.fs) && FileIno(v.fs, ino) && FileBytes(v.fs.blk, v.fs.inodes[ino - 1]) == data
    ensures ok ==> v.fs.geo == fs0.geo && v.fs.ibits == fs0.ibits && OthersRead(fs0, 0, v.fs, ino - 1)
    ensures ok ==> BlocksRight(v.fs, v.fs.inodes[ino - 1])
    ensures ok ==> v.fs.inodes[ino - 1].mode == file.mode && v.fs.inodes[ino - 1].size == |data|
    ensures ok ==> Exchanged(fs0, v.fs, TreeBlocks(fs0, fs0.inodes[ino - 1]), TreeBlocks(v.fs, v.fs.inodes[ino - 1]))
    ensures ok <==> FitsInFile(data) && BlocksFor(data) <= old(v.fs).totB
  {
    hide InvX, Counted, Rep, Loaded, OthersRead, BitsSet, FileType, TreeBlocks, FileBytes, Exchanged, BlocksRight,
      Shape, FileIno, NeedBlocks, FitsInFile, Wrote, HasContents;
    ghost var fs1 := v.fs;
    ShapeOf(fs1, NO_DEBT);
    FileIsReg(fs1, ino);
    WriteReady(fs1, NO_DEBT);
    var filled;
    ghost var t;
    ok, filled, t := WriteContents(v, file, data);
    if !ok { return false; }
    Rewritten(fs0, fs1, v.fs, ino, filled, data, t);
    KeepsMode(v.fs.blk, file, filled, data, t);
    ok := v.WriteInode(ino, filled);
  }

  lemma KeepsMode(d: seq<Block>, file0: Inode, file: Inode, data: seq<Byte>, t: set<nat>)
    requires IsReg(file0) && HasContents(d, file0, file, data, t)
    ensures file.mode == file0.mode && file.size == |data|
  {}

  /** From emptied file to new contents: fs1 before, fs2 after the write, then the inode. */
  lemma Rewritten(fs0: Fs, fs1: Fs, fs2: Fs, ino: nat, filled: Inode, data: seq<Byte>, t: set<nat>)
    requires Inv(fs0) && Inv(fs1) && FileIno(fs0, ino) && FileIno(fs1, ino) && fs1.inodes[ino - 1].block == NO_BLOCKS
    requires fs1.geo == fs0.geo && fs1.ibits == fs0.ibits && OthersRead(fs0, 0, fs1, ino - 1)
    requires (fs1 == fs0 && TreeBlocks(fs0, fs0.inodes[ino - 1]) == {})
      || BitsSet(fs0, fs1.(inodes := fs0.inodes), TreeBlocks(fs0, fs0.inodes[ino - 1]), false)
    requires Wrote(fs1, fs2, t) && HasContents(fs2.blk, fs1.inodes[ino - 1], filled, data, t)
    ensures ino <= |fs2.inodes| == fs2.geo.Inodes()
    ensures var fs3 := fs2.(inodes := fs2.inodes[ino - 1 := filled]);
      && Inv(fs3) && FileIno(fs3, ino) && FileBytes(fs3.blk, filled) == data
      && fs3.geo == fs0.geo && fs3.ibits == fs0.ibits && OthersRead(fs0, 0, fs3, ino - 1)
      && Exchanged(fs0, fs3, TreeBlocks(fs0, fs0.inodes[ino - 1]), TreeBlocks(fs3, filled)) && BlocksRight(fs3, filled)
  {
    hide InvX, Counted, OthersRead, BitsSet, FileType, TreeBlocks, Lookup, FileBytes, Exchanged, BlocksRight, Shape,
      Alloc, Wrote, SameReading;
    ShapeOf(fs0, NO_DEBT);
    ShapeOf(fs1, NO_DEBT);
    WriteStep(fs1, fs2, ino, filled, data, t);
    WroteFree(fs1, fs2, t);
    var fs3 := fs2.(inodes := fs2.inodes[ino - 1 := filled]);
    ShapeOf(fs3, NO_DEBT);
    InodesLen(fs1);
    InodesLen(fs3);
    Refilled(fs0, fs1, fs2, fs3, TreeBlocks(fs0, fs0.inodes[ino - 1]), t);
    ContentsBlocks(fs3, fs1.inodes[ino - 1], filled, data, t);
    CountedByBits(fs0, fs1, 0);
    ReadTrans(fs0, fs1, 0, fs3, ino - 1);
  }

  lemma StillFile(fs0: Fs, fs1: Fs, ino: nat)
    requires FileIno(fs0, ino) && Shape(fs1) && fs1.ibits == fs0.ibits && |fs1.inodes| == |fs0.inodes|
    requires fs1.inodes[ino - 1].mode == fs0.inodes[ino - 1].mode
    ensures FileIno(fs1, ino)
  {}

  // ---- read ----

  /** ext2_read_file_at */
  method Read(v: Volume, path: seq<string>) returns (ok: bool, out: seq<Byte>)
    requires v.OnDisk() && Inv(v.fs) && FileOrDir(v.fs, PathTo(v.fs, 2, path))
    modifies v`sb, v`gd
    ensures ok ==> FileIno(v.fs, PathTo(v.fs, 2, path))
    ensures ok ==> out == FileBytes(v.fs.blk, v.fs.inodes[PathTo(v.fs, 2, path) - 1])
    ensures FileIno(v.fs, PathTo(v.fs, 2, path)) && v.fs.geo.groups <= MAX_GROUPS ==>
              (ok <==> v.fs.inodes[PathTo(v.fs, 2, path) - 1].size <= MAX_BYTES)
  {
    hide InvX, Counted, Rep, Loaded, FileType, PathTo, FileBytes, TreeInData;
    out := [];
    ok := v.LoadMeta();
    if !ok { return false, out; }
    var ino;
    ok, ino := Resolve(v, path);
    if !ok { NowhereIsNoFile(v.fs); return false, out; }
    assert |v.fs.inodes| == v.fs.geo.Inodes() && Shape(v.fs) by { ShapeOf(v.fs, NO_DEBT); }
    var file;
    ok, file := v.ReadInode(ino);
    if IsDir(file) { RegOrDir(file); return false, out; }
    FileTree(v.fs, NO_DEBT, ino);
    ok, out := ReadFile(v, file);
  }

  const MAX_BYTES: nat := (12 + PTRS + PTRS * PTRS) * BS

  // ---- unlink ----

  /** The file listed under that name is gone: inode and blocks free, name absent, all else as it was. */
  ghost predicate Unlinked(fs0: Fs, fs: Fs, parent: seq<string>, name: string) {
    var p := PathTo(fs0, 2, parent);
    && Inv(fs0) && Inv(fs) && fs.geo == fs0.geo && |fs.inodes| == |fs0.inodes|
    && DirIno(fs0, p) && Find(fs0, p, name).Entry?
    && var ino := Find(fs0, p, name).ino;
    && FileIno(fs0, ino) && !IAlloc(fs, ino - 1)
    && Unlisted(fs0, fs, p - 1, name)
    && (forall k: nat | k < |fs0.inodes| && k != p - 1 && k != ino - 1 && Counted(fs0, 0, k) :: SameReading(fs0, fs, k))
    && (forall k: nat :: Counted(fs, 0, k) == (Counted(fs0, 0, k) && k != ino - 1))
    && (forall b: nat :: Alloc(fs, b) == (Alloc(fs0, b) && b !in TreeBlocks(fs0, fs0.inodes[ino - 1])))
  }

  /** The inode found has no link, mode or contents any more, only the time it was removed. */
  predicate Stamped(fs: Fs, found: Found, now: nat) {
    found.Entry? && 1 <= found.ino <= |fs.inodes| && fs.inodes[found.ino - 1] == InodeFields(0, 0, now, 0, 0, NO_BLOCKS)
  }

  lemma DropStep(fs1: Fs, fs2: Fs, ino: nat, gone: Inode)
    requires InvX(fs1, NO_DEBT.(lone := ino)) && FileIno(fs1, ino)
    requires BitsSet(fs1, fs2, TreeBlocks(fs1, fs1.inodes[ino - 1]), false)
    ensures var fs3 := fs2.(inodes := fs2.inodes[ino - 1 := gone]);
      && fs2.inodes == fs1.inodes && fs2.geo == fs1.geo && Shape(fs3) && IAlloc(fs3, ino - 1)
      && var fs4 := WithIBit(fs3, ino - 1, false);
      && Inv(fs4) && !IAlloc(fs4, ino - 1) && fs4.blk == fs1.blk && fs4.bits == fs2.bits && fs4.geo == fs1.geo
      && fs4.inodes == fs1.inodes[ino - 1 := gone]
      && (forall k: nat :: Counted(fs4, 0, k) == (Counted(fs1, 0, k) && k != ino - 1))
  {
    hide InvX, TreeCnt, TreeBlocks, BlockCounts, FileType, Geo.IsMeta, Geo.Valid, WithIBit;
    var k, t, debt := ino - 1, TreeSet(fs1, ino - 1), NO_DEBT.(lone := ino);
    FileTree(fs1, debt, ino);
    RegOnly(fs1.inodes[k]);
    IBitsReady(fs1, debt, k);
    var fsA := WithIBit(fs1, k, false);
    DropInode(fs1, debt, fsA, k);
    var debtA := NO_DEBT.(spare := t);
    assert debt.(spare := debt.spare + t, lone := 0) == debtA;
    var fsB := fsA.(bits := fs2.bits, freeB := fs2.freeB, totB := fs2.totB);
    BitsOverIBits(fs1, fs2, fsA, fsB, t);
    GiveBlocks(fsA, debtA, fsB, t);
    assert debtA.(spare := t - t) == NO_DEBT;
    WriteUncounted(fsB, NO_DEBT, k, gone);
    Commutes(fs1, fs2, k, gone);
  }

  lemma IBitsReady(fs: Fs, debt: Debt, k: nat)
    requires InvX(fs, debt) && k < |fs.inodes| && Counted(fs, debt.newborn, k)
    ensures IBitSet(fs, WithIBit(fs, k, false), k, false) && IAlloc(fs, k)
  {
    hide Ownership, LinksMatch, BlockCounts, Inodes;
    WithIBitSets(fs, k, false);
  }

  lemma BitsOverIBits(fs1: Fs, fs2: Fs, fsA: Fs, fsB: Fs, t: set<nat>)
    requires BitsSet(fs1, fs2, t, false) && Shape(fsA)
    requires fsA == fs1.(ibits := fsA.ibits, freeI := fsA.freeI, totI := fsA.totI)
    requires fsB == fsA.(bits := fs2.bits, freeB := fs2.freeB, totB := fs2.totB)
    ensures BitsSet(fsA, fsB, t, false)
  {}

  /** Freeing blocks, wiping the inode and freeing it: the order does not matter. */
  lemma Commutes(fs1: Fs, fs2: Fs, k: nat, gone: Inode)
    requires Shape(fs1) && Shape(fs2) && k < |fs1.inodes|
    requires fs2 == fs1.(bits := fs2.bits, freeB := fs2.freeB, totB := fs2.totB)
    ensures var fsA := WithIBit(fs1, k, false);
      WithIBit(fs2.(inodes := fs2.inodes[k := gone]), k, false) ==
        fsA.(bits := fs2.bits, freeB := fs2.freeB, totB := fs2.totB, inodes := fs2.inodes[k := gone])
  {}

  lemma EntryTarget(fs: Fs, p: nat, name: string)
    requires Inv(fs) && 1 <= p <= |fs.inodes| && Counted(fs, 0, p - 1) && Find(fs, p, name).Entry?
    ensures var ino := Find(fs, p, name).ino;
      1 <= ino <= |fs.inodes| && Counted(fs, 0, ino - 1) && (IsReg(fs.inodes[ino - 1]) ==> FileIno(fs, ino) && ino != p)
  {
    hide InvX, Counted, Lookup, FileType, Shape;
    EntryInUse(fs, NO_DEBT, p - 1, name);
    ShapeOf(fs, NO_DEBT);
    var ino := Find(fs, p, name).ino;
    if IsReg(fs.inodes[ino - 1]) { RegOnly(fs.inodes[ino - 1]); }
  }

  lemma AfterEntry(fs0: Fs, fs1: Fs, p: nat, ino: nat)
    requires Shape(fs0) && Shape(fs1) && fs1 == fs0.(blk := fs1.blk) && FileIno(fs0, ino) && ino != p
    requires p >= 1 && OthersRead(fs0, 0, fs1, p - 1)
    ensures FileIno(fs1, ino) && forall k: nat :: Counted(fs1, 0, k) == Counted(fs0, 0, k)
  {}

  lemma SameTreeBlocks(fs0: Fs, fs1: Fs, p: nat, ino: nat)
    requires p >= 1 && AlikeBut(fs0, 0, fs1, 0, p - 1) && FileIno(fs0, ino) && ino != p
    requires Inv(fs0) && InvX(fs1, NO_DEBT.(lone := ino)) && FileIno(fs1, ino)
    ensures TreeBlocks(fs1, fs1.inodes[ino - 1]) == TreeBlocks(fs0, fs0.inodes[ino - 1])
  {
    hide InvX, TreeCnt, TreeBlocks, TreeInData, FileType, DirCnt;
    FileTree(fs0, NO_DEBT, ino);
    FileTree(fs1, NO_DEBT.(lone := ino), ino);
    assert Alike(fs0, 0, fs1, 0, ino - 1);
  }

  lemma AllocGone(fs0: Fs, fs1: Fs, fs2: Fs, fs4: Fs, t: set<nat>)
    requires Shape(fs0) && Shape(fs4) && fs1 == fs0.(blk := fs1.blk) && BitsSet(fs1, fs2, t, false)
    requires fs4.bits == fs2.bits && fs4.geo == fs0.geo
    ensures forall b: nat :: Alloc(fs4, b) == (Alloc(fs0, b) && b !in t)
  {
    AllocAfter(fs1, fs2, t, false);
    forall b: nat ensures Alloc(fs4, b) == (Alloc(fs0, b) && b !in t) {
      assert Alloc(fs2, b) == Alloc(fs4, b) && Alloc(fs1, b) == Alloc(fs0, b);
    }
  }

  lemma FinishUnlink(fs0: Fs, fs1: Fs, fs2: Fs, fs4: Fs, parent: seq<string>, name: string, ino: nat)
    requires var p := PathTo(fs0, 2, parent);
      && Inv(fs0) && DirIno(fs0, p) && Find(fs0, p, name).Entry? && Find(fs0, p, name).ino == ino
      && FileIno(fs0, ino) && ino != p && fs1 == fs0.(blk := fs1.blk) && Shape(fs1)
      && Unlisted(fs0, fs1, p - 1, name) && OthersRead(fs0, 0, fs1, p - 1)
    requires BitsSet(fs1, fs2, TreeBlocks(fs0, fs0.inodes[ino - 1]), false)
    requires Inv(fs4) && Shape(fs4) && !IAlloc(fs4, ino - 1) && fs4.blk == fs1.blk && fs4.bits == fs2.bits && fs4.geo == fs0.geo
    requires |fs4.inodes| == |fs0.inodes| && forall k: nat | k < |fs0.inodes| && k != ino - 1 :: fs4.inodes[k] == fs1.inodes[k]
    requires forall k: nat :: Counted(fs4, 0, k) == (Counted(fs1, 0, k) && k != ino - 1)
    ensures Unlinked(fs0, fs4, parent, name)
  {
    hide InvX, Lookup, FileBytes, IsDir, IsReg, TreeBlocks, PathTo, Geo.Valid, Counted, IAlloc, BitsSet, Alloc, Shape;
    var p := PathTo(fs0, 2, parent);
    AfterEntry(fs0, fs1, p, ino);
    AllocGone(fs0, fs1, fs2, fs4, TreeBlocks(fs0, fs0.inodes[ino - 1]));
    forall k: nat | k < |fs0.inodes| && k != p - 1 && k != ino - 1 && Counted(fs0, 0, k) ensures SameReading(fs0, fs4, k) {
      assert SameReading(fs0, fs1, k);
    }
  }

  /** A regular file is listed there under a name that may be removed. */
  ghost predicate CanUnlink(fs: Fs, parent: seq<string>, name: string) {
    && fs.geo.groups <= MAX_GROUPS && NameOK(name) && name != "." && name != ".."
    && var f := Find(fs, PathTo(fs, 2, parent), name);
    f.Entry? && FileIno(fs, f.ino) && f.ftype != 2
  }

  lemma RegOrDirVictim(i: Inode)
    ensures IsDir(i) ==> !IsReg(i)
  {}

  /** ext2_unlink_at */
  method Unlink(v: Volume, parent: seq<string>, name: string, now: nat) returns (ok: bool)
    requires v.OnDisk() && Inv(v.fs)
    requires var p := PathTo(v.fs, 2, parent);
      Find(v.fs, p, name).Entry? ==> FileOrDir(v.fs, Find(v.fs, p, name).ino)
    modifies v
    ensures ok ==> v.OnDisk() && Unlinked(old(v.fs), v.fs, parent, name)
    ensures !ok ==> v.OnDisk() && v.fs == old(v.fs)
    ensures ok <==> CanUnlink(old(v.fs), parent, name)
    ensures ok ==> Stamped(v.fs, Find(old(v.fs), PathTo(old(v.fs), 2, parent), name), now)
  {
    hide InvX, Counted, Rep, Loaded, FileType, PathTo, FileBytes, TreeInData, TreeBlocks, BitsSet, Lookup, WithIBit;
    ok := v.LoadMeta();
    if !ok { return false; }
    if |name| == 0 || |name| > 255 || name == "." || name == ".." { return false; }
    ghost var fs0 := v.fs;
    assert |fs0.inodes| == fs0.geo.Inodes() && Shape(fs0) by { ShapeOf(fs0, NO_DEBT); }
    var parentIno;
    ok, parentIno := Resolve(v, parent);
    if !ok { return false; }
    var rc, ino, ftype := FindEntry(v, parentIno, name, NO_DEBT);
    if rc != 1 { return false; }
    EntryTarget(fs0, parentIno, name);
    var victim, pdir;
    ok, victim := v.ReadInode(ino);
    if IsDir(victim) || ftype == 2 {
      RegOrDirVictim(victim);
      return false;
    }
    FileTree(fs0, NO_DEBT, ino);
    if victim.block[14] != 0 { return false; }
    ok, pdir := v.ReadInode(parentIno);
    RemoveFile(v, parentIno, pdir, name, ino, ftype, victim, now, parent);
    return true;
  }

  /** Once the entry is gone the blocks can be freed. */
  lemma ReadyToFree(fs0: Fs, fs1: Fs, p: nat, ino: nat)
    requires Inv(fs0) && FileIno(fs0, ino) && InvX(fs1, NO_DEBT.(lone := ino)) && fs1 == fs0.(blk := fs1.blk)
    requires p >= 1 && ino != p && OthersRead(fs0, 0, fs1, p - 1) && AlikeBut(fs0, 0, fs1, 0, p - 1)
    ensures FileIno(fs1, ino) && Shape(fs1) && fs1.inodes[ino - 1] == fs0.inodes[ino - 1] && |fs1.inodes| == fs1.geo.Inodes()
    ensures BlockCounts(fs1) && TreeInData(fs1, fs1.inodes[ino - 1]) && fs1.inodes[ino - 1].block[14] == 0
    ensures Shape(fs0) && TreeBlocks(fs1, fs1.inodes[ino - 1]) == TreeBlocks(fs0, fs0.inodes[ino - 1])
  {
    hide InvX, Counted, Shape, FileIno, FileType, TreeInData, TreeBlocks, OthersRead, AlikeBut;
    ShapeOf(fs0, NO_DEBT);
    ShapeOf(fs1, NO_DEBT.(lone := ino));
    AfterEntry(fs0, fs1, p, ino);
    SameTreeBlocks(fs0, fs1, p, ino);
    FileTree(fs1, NO_DEBT.(lone := ino), ino);
    WriteReady(fs1, NO_DEBT.(lone := ino));
    InodesLen(fs1);
  }

  /** Blocks and inode of a file no entry names any more. */
  method FreeVictim(v: Volume, ino: nat, victim: Inode, now: nat) returns (ghost fs2: Fs)
    requires v.Synced() && InvX(v.fs, NO_DEBT.(lone := ino)) && FileIno(v.fs, ino) && victim == v.fs.inodes[ino - 1]
    requires Shape(v.fs) && |v.fs.inodes| == v.fs.geo.Inodes()
    requires BlockCounts(v.fs) && TreeInData(v.fs, victim) && victim.block[14] == 0
    modifies v
    ensures v.Synced() && BitsSet(old(v.fs), fs2, TreeBlocks(old(v.fs), victim), false)
    ensures Inv(v.fs) && Shape(v.fs) && !IAlloc(v.fs, ino - 1) && v.fs.blk == old(v.fs).blk && v.fs.bits == fs2.bits
    ensures v.fs.geo == old(v.fs).geo
    ensures v.fs.inodes == old(v.fs).inodes[ino - 1 := ZERO_INODE.(dtime := now)]
    ensures forall k: nat :: Counted(v.fs, 0, k) == (Counted(old(v.fs), 0, k) && k != ino - 1)
  {
    hide InvX, Counted, Loaded, FileType, TreeInData, TreeBlocks, BitsSet, WithIBit, Rep, Shape, IAlloc, BlockCounts,
      FileIno;
    ghost var fs1 := v.fs;
    FileIsReg(fs1, ino);
    var ok := FreeDataBlocks(v, victim);
    fs2 := v.fs;
    var gone := ZERO_INODE.(dtime := now);
    DropStep(fs1, fs2, ino, gone);
    ok := v.WriteInode(ino, gone);
    ghost var fs3 := fs2.(inodes := fs2.inodes[ino - 1 := gone]);
    assert v.fs == fs3;
    ok := FreeInode(v, ino);
    assert v.fs == WithIBit(fs3, ino - 1, false);
    ShapeOf(v.fs, NO_DEBT);
  }

  /** Entry, blocks, inode, in this order; then the parent is stamped. */
  method RemoveFile(v: Volume, parentIno: nat, pdir: Inode, name: string, ino: nat, ghost ftype: nat,
                    victim: Inode, now: nat, ghost parent: seq<string>)
    requires v.Synced() && Inv(v.fs) && parentIno == PathTo(v.fs, 2, parent) && DirIno(v.fs, parentIno)
    requires Counted(v.fs, 0, parentIno - 1) && pdir == v.fs.inodes[parentIno - 1]
    requires Find(v.fs, parentIno, name) == Entry(ino, ftype) && ftype != 2
    requires FileIno(v.fs, ino) && ino != parentIno && victim == v.fs.inodes[ino - 1]
    modifies v
    ensures v.OnDisk() && Unlinked(old(v.fs), v.fs, parent, name)
    ensures Stamped(v.fs, Entry(ino, ftype), now)
  {
    hide InvX, Counted, Loaded, FileType, PathTo, TreeInData, TreeBlocks, BitsSet, Lookup, Rep, Unlisted, OthersRead,
      AlikeBut, Shape, IAlloc, Unlinked, FileIno, BlockCounts;
    ghost var fs0 := v.fs;
    FileIsReg(fs0, ino);
    var removed := RemoveDirent(v, parentIno - 1, pdir, name, ino, ftype);
    ghost var fs1 := v.fs;
    ReadyToFree(fs0, fs1, parentIno, ino);
    ghost var fs2 := FreeVictim(v, ino, victim, now);
    ghost var fs4 := v.fs;
    var ok := v.WriteInode(parentIno, pdir);
    assert v.fs.inodes == fs4.inodes;
    FinishUnlink(fs0, fs1, fs2, fs4, parent, name, ino);
  }

  lemma FileIsReg(fs: Fs, ino: nat)
    requires FileIno(fs, ino)
    ensures 1 <= ino <= |fs.inodes| && IsReg(fs.inodes[ino - 1]) && |fs.inodes| == fs.geo.Inodes() && Shape(fs)
  {}
}
