/** Adding an entry to a directory and removing one. */
module Ext2Entries {
  import opened Ext2Layout
  import opened Ext2State
  import opened Ext2Frames
  import opened Ext2Steps
  import opened Ext2DirSteps
  import opened Ext2Records
  import opened Ext2Volume
  import opened Ext2Bitmaps
  import opened Ext2Engine
  import opened Ext2Alloc
  import opened Ext2Counts
  import opened Ext2Dir

  // ---- what stays readable ----

  /** The same blocks are met in the tree of i. */
  ghost predicate SameTree(d: seq<Block>, d2: seq<Block>, i: Inode) {
    forall b: nat :: TreeCnt(d2, i, b) == TreeCnt(d, i, b)
  }

  /** Inode k reads in fs2 as it did in fs1. */
  ghost predicate SameReading(fs1: Fs, fs2: Fs, k: nat)
    requires k < |fs1.inodes| == |fs2.inodes|
  {
    var i := fs1.inodes[k];
    && fs2.inodes[k] == i
    && (IsReg(i) ==> FileBytes(fs2.blk, i) == FileBytes(fs1.blk, i))
    && (IsReg(i) ==> SameTree(fs1.blk, fs2.blk, i))
    && (IsDir(i) ==> forall nm: string :: Lookup(fs2.blk, i, nm) == Lookup(fs1.blk, i, nm))
  }

  /** All inodes in use but p read as before. */
  ghost predicate OthersRead(fs1: Fs, n: nat, fs2: Fs, p: nat) {
    && Shape(fs1) && |fs1.inodes| == |fs2.inodes|
    && forall k: nat | k < |fs1.inodes| && k != p && Counted(fs1, n, k) :: SameReading(fs1, fs2, k)
  }

  lemma UnwrittenRead(fs1: Fs, n: nat, blk2: seq<Block>, w: set<nat>, p: nat)
    requires Shape(fs1) && SameBut(fs1.blk, blk2, w)
    requires forall k: nat | k < |fs1.inodes| && k != p && Counted(fs1, n, k) :: Misses(fs1.blk, fs1.inodes[k], w)
    ensures OthersRead(fs1, n, fs1.(blk := blk2), p)
  {
    hide SameBut, Misses, FileBytes, Lookup, IsDir, IsReg, NoTree, Counted, Shape, TreeCnt;
    forall k: nat | k < |fs1.inodes| && k != p && Counted(fs1, n, k) ensures SameReading(fs1, fs1.(blk := blk2), k) {
      var i := fs1.inodes[k];
      if IsReg(i) {
        DirHasTree(i);
        FileFrame(fs1.blk, blk2, w, i);
        forall b: nat ensures TreeCnt(blk2, i, b) == TreeCnt(fs1.blk, i, b) { TreeFrame(fs1.blk, blk2, w, i, b); }
      }
      if IsDir(i) {
        DirHasTree(i);
        DirFrame(fs1.blk, blk2, w, i);
      }
    }
  }

  // ---- records in a block: readings other than the changed ones are left open ----

  /** Put r into the slack of the record at pos. */
  method InsertRec(recs: seq<Rec>, pos: nat, child: nat, ftype: nat, name: string) returns (recs2: seq<Rec>, r: Rec)
    requires |recs| == BS && pos < BS && RecFits(recs, pos)
    requires MinRec(|recs[pos].name|) + MinRec(|name|) <= recs[pos].recLen
    ensures Inserted(recs, recs2, pos, r) && |recs2| == BS && r.ino == child && r.ftype == ftype && r.name == name
  {
    var oldrec, min := recs[pos].recLen, MinRec(|recs[pos].name|);
    r := Rec(child, oldrec - min, ftype, name);
    recs2 := recs[pos := recs[pos].(recLen := min)][pos + min := r];
  }

  /** A block with a single record. */
  method SoleRec(child: nat, ftype: nat, name: string) returns (recs: seq<Rec>)
    ensures |recs| == BS && recs[0] == Rec(child, BS, ftype, name)
  {
    recs := seq(BS, _ => Rec(0, 0, 0, ""))[0 := Rec(child, BS, ftype, name)];
  }

  method MergeRec(recs: seq<Rec>, prev: nat, pos: nat) returns (recs2: seq<Rec>)
    requires |recs| == BS && prev < pos < BS && RecFits(recs, prev) && RecFits(recs, pos)
    requires pos == prev + recs[prev].recLen
    ensures Merged(recs, recs2, prev, pos)
  {
    recs2 := recs[prev := recs[prev].(recLen := recs[prev].recLen + recs[pos].recLen)];
  }

  method BlankRec(recs: seq<Rec>) returns (recs2: seq<Rec>)
    requires |recs| == BS && RecFits(recs, 0)
    ensures Blanked(recs, recs2)
  {
    recs2 := recs[0 := recs[0].(ino := 0)];
  }

  /** First record with room for need more bytes; BS when there is none. */
  method FindSlack(recs: seq<Rec>, need: nat) returns (pos: nat)
    requires |recs| == BS
    ensures pos == SlackFrom(recs, 0, need)
    ensures pos < BS ==> OnChain(recs, 0, pos) && RecFits(recs, pos) && MinRec(|recs[pos].name|) + need <= recs[pos].recLen
  {
    pos := 0;
    while pos + 8 <= BS
      invariant 0 <= pos <= BS && OnChain(recs, 0, pos) && SlackFrom(recs, 0, need) == SlackFrom(recs, pos, need)
    {
      var de := recs[pos];
      if de.recLen < 8 || pos + de.recLen > BS { break; }
      if de.recLen >= MinRec(|de.name|) + need { return pos; }
      ChainNext(recs, 0, pos);
      pos := pos + de.recLen;
    }
    return BS;
  }

  // ---- insertion ----

  /** The directory has direct slots left. */
  ghost predicate CanGrow(fs: Fs, p: nat) {
    p < |fs.inodes| && IsDir(fs.inodes[p]) && fs.inodes[p].size < 12 * BS
  }

  /** First record from pos on with need bytes to spare, or the block size. */
  ghost function SlackFrom(recs: seq<Rec>, pos: nat, need: nat): nat
    requires |recs| == BS
    decreases BS - pos
  {
    if !RecFits(recs, pos) then BS
    else if recs[pos].recLen >= MinRec(|recs[pos].name|) + need then pos
    else SlackFrom(recs, pos + recs[pos].recLen, need)
  }

  /** Block x of directory dir has room for an entry of that name. */
  ghost predicate SlackIn(fs: Fs, dir: Inode, name: string, x: nat) {
    x < 12 && 0 < dir.block[x] < |fs.blk| && SlackFrom(fs.blk[dir.block[x]].recs, 0, MinRec(|name|)) < BS
  }

  ghost predicate HasSlack(fs: Fs, p: nat, name: string) {
    p < |fs.inodes| && IsDir(fs.inodes[p]) && exists x: nat :: SlackIn(fs, fs.inodes[p], name, x)
  }

  /** An entry of that name can be added to directory p: room in a block, or for a block more. */
  ghost predicate DirRoom(fs: Fs, p: nat, name: string) {
    HasSlack(fs, p, name) || (CanGrow(fs, p) && fs.totB > 0)
  }

  lemma RoomLeft(fs: Fs, debt: Debt)
    requires InvX(fs, debt) && Shape(fs) && Alloc(fs, 0)
    ensures Pick(fs, 0) == 0 <==> fs.totB == 0
  {
    PickEmpty(fs);
  }

  ghost function After(debt: Debt, p: nat, ftype: nat): Debt {
    debt.(lone := 0, grown := if ftype == 2 then p + 1 else 0)
  }

  /** The directory p of fs1 lists child under name in fs2, and is otherwise the same directory. */
  ghost predicate Listed(fs1: Fs, fs2: Fs, p: nat, child: nat, ftype: nat, name: string)
    requires p < |fs1.inodes| == |fs2.inodes|
  {
    && fs2.inodes[p].links == fs1.inodes[p].links && IsDir(fs2.inodes[p])
    && forall nm: string :: Lookup(fs2.blk, fs2.inodes[p], nm) ==
         if nm == name then Entry(child, ftype) else Lookup(fs1.blk, fs1.inodes[p], nm)
  }

  ghost predicate CanAppend(fs: Fs, debt: Debt, p: nat, child: nat, ftype: nat, name: string) {
    && InvX(fs, debt) && p < |fs.inodes| && Counted(fs, debt.newborn, p) && IsDir(fs.inodes[p])
    && NameOK(name) && Lookup(fs.blk, fs.inodes[p], name) == Missing
    && child != 0 && debt.lone == child && debt.grown == 0
  }

  lemma NoSuchName(fs: Fs, debt: Debt, p: nat, name: string)
    requires InvX(fs, debt) && p < |fs.inodes| && Counted(fs, debt.newborn, p) && IsDir(fs.inodes[p])
    requires Lookup(fs.blk, fs.inodes[p], name) == Missing
    ensures DirCnt(fs.blk, fs.inodes[p], ByName(name)) == 0
  {
    SlotPrefix(fs, debt, p);
    MissingMeansNone(fs.blk, fs.inodes[p], name);
  }

  /** Slack of block j used: what it means for the whole volume. */
  lemma SlackUsed(fs: Fs, debt: Debt, p: nat, j: nat, blk2: seq<Block>, pos: nat, r: Rec)
    requires CanAppend(fs, debt, p, r.ino, r.ftype, r.name) && j < 12
    requires 0 < fs.inodes[p].block[j] < |fs.blk| && SameBut(fs.blk, blk2, {fs.inodes[p].block[j]})
    requires Inserted(fs.blk[fs.inodes[p].block[j]].recs, blk2[fs.inodes[p].block[j]].recs, pos, r)
    requires OnChain(fs.blk[fs.inodes[p].block[j]].recs, 0, pos)
    ensures InvX(fs.(blk := blk2), After(debt, p, r.ftype))
    ensures Listed(fs, fs.(blk := blk2), p, r.ino, r.ftype, r.name)
    ensures OthersRead(fs, debt.newborn, fs.(blk := blk2), p)
  {
    hide Inserted, OnChain, InvX, Shape, Tiles, Counted, DirShape;
    assert Shape(fs) by { ShapeOf(fs, debt); }
    var i, b := fs.inodes[p], fs.inodes[p].block[j];
    var recs, recs2 := fs.blk[b].recs, blk2[b].recs;
    DirBlockPlace(fs, debt, p, j);
    NoSuchName(fs, debt, p, r.name);
    forall q: Query ensures RecCnt(recs2, 0, q) == RecCnt(recs, 0, q) + One(Hit(q, r)) {
      InsertCounts(recs, recs2, 0, pos, r, q);
    }
    InsertCounts(recs, recs2, 0, pos, r, Live);
    AddEntry(fs, debt, p, j, blk2, r);
    DirOthers(fs, debt, p, j, blk2);
    CountedOver(fs, blk2, debt.newborn, p);
    SlotPrefix(fs.(blk := blk2), After(debt, p, r.ftype), p);
    SlackLookup(fs, debt, p, j, blk2, pos, r);
  }

  lemma CountedOver(fs: Fs, blk2: seq<Block>, n: nat, k: nat)
    requires Shape(fs) && |blk2| == |fs.blk|
    ensures Shape(fs.(blk := blk2)) && Counted(fs.(blk := blk2), n, k) == Counted(fs, n, k)
  {}

  /** Writing a block of directory p is invisible to every other inode. */
  lemma DirOthers(fs: Fs, debt: Debt, p: nat, j: nat, blk2: seq<Block>)
    requires InvX(fs, debt) && p < |fs.inodes| && Counted(fs, debt.newborn, p) && IsDir(fs.inodes[p])
    requires j < 12 && fs.inodes[p].block[j] != 0 && SameBut(fs.blk, blk2, {fs.inodes[p].block[j]})
    ensures OthersRead(fs, debt.newborn, fs.(blk := blk2), p)
  {
    hide TreeCnt, InvX, Counted, Shape, IsDir;
    assert Shape(fs) by { ShapeOf(fs, debt); }
    var b := fs.inodes[p].block[j];
    DirBlockPlace(fs, debt, p, j);
    forall k: nat | k < |fs.inodes| && k != p && Counted(fs, debt.newborn, k) ensures Misses(fs.blk, fs.inodes[k], {b}) {
      TreesApart(fs, debt, p, k, b);
    }
    UnwrittenRead(fs, debt.newborn, blk2, {b}, p);
  }

  lemma SlackLookup(fs: Fs, debt: Debt, p: nat, j: nat, blk2: seq<Block>, pos: nat, r: Rec)
    requires CanAppend(fs, debt, p, r.ino, r.ftype, r.name) && j < 12
    requires 0 < fs.inodes[p].block[j] < |fs.blk| && SameBut(fs.blk, blk2, {fs.inodes[p].block[j]})
    requires Inserted(fs.blk[fs.inodes[p].block[j]].recs, blk2[fs.inodes[p].block[j]].recs, pos, r)
    requires OnChain(fs.blk[fs.inodes[p].block[j]].recs, 0, pos)
    requires DirShape(blk2, fs.inodes[p])
    ensures Listed(fs, fs.(blk := blk2), p, r.ino, r.ftype, r.name)
  {
    hide Inserted, OnChain, InvX, Shape, Counted, DirCnt, Tiles, FindFrom;
    var i, b := fs.inodes[p], fs.inodes[p].block[j];
    var recs, recs2 := fs.blk[b].recs, blk2[b].recs;
    DirBlockPlace(fs, debt, p, j);
    NoSuchName(fs, debt, p, r.name);
    SlotsDiffer(fs, debt, p, j);
    forall y: nat | y < 12 && i.block[y] != 0 ensures FindFrom(fs.blk[i.block[y]].recs, 0, r.name).ino == 0 {
      NoneInBlock(fs.blk, i, r.name, y);
    }
    FindCounts(recs, 0, r.name);
    forall nm: string
      ensures Lookup(blk2, i, nm) == if nm == r.name then Entry(r.ino, r.ftype) else Lookup(fs.blk, i, nm)
    {
      InsertFind(recs, recs2, 0, pos, r, nm);
      if nm == r.name {
        LookupHit(blk2, i, nm, j, r, 0);
      } else {
        LookupSame(fs.blk, blk2, i, nm, b, 0);
      }
    }
  }

  lemma NoneInBlock(d: seq<Block>, i: Inode, nm: string, y: nat)
    requires DirShape(d, i) && DirCnt(d, i, ByName(nm)) == 0 && y < 12 && i.block[y] != 0
    ensures i.block[y] < |d| && FindFrom(d[i.block[y]].recs, 0, nm).ino == 0
  {
    DirCntSlot(d, i, ByName(nm), y, 12);
    FindCounts(d[i.block[y]].recs, 0, nm);
  }

  /** A new block for the directory, from allocation to the grown inode. */
  lemma BlockAdded(fs: Fs, debt: Debt, fs1: Fs, b: nat, blk2: seq<Block>, p: nat, i2: Inode, r: Rec)
    requires CanAppend(fs, debt, p, r.ino, r.ftype, r.name) && fs.inodes[p].size / BS < 12
    requires b != 0 && !Alloc(fs, b) && BitsSet(fs, fs1, {b}, true) && b < |fs.blk|
    requires SameBut(fs.blk, blk2, {b}) && blk2[b].recs[0] == r && r.recLen == BS
    requires i2 == fs.inodes[p].(block := fs.inodes[p].block[fs.inodes[p].size / BS := b],
                                 size := fs.inodes[p].size + BS, blocks := fs.inodes[p].blocks + BS / 512)
    ensures InvX(fs1.(blk := blk2, inodes := fs.inodes[p := i2]), After(debt, p, r.ftype))
    ensures Listed(fs, fs1.(blk := blk2, inodes := fs.inodes[p := i2]), p, r.ino, r.ftype, r.name)
    ensures OthersRead(fs, debt.newborn, fs1.(blk := blk2, inodes := fs.inodes[p := i2]), p)
  {
    hide InvX, Shape, Counted, DirCnt, BitsSet, Alloc, IsDir, FileBytes, Lookup, Tiles;
    assert Shape(fs) by { ShapeOf(fs, debt); }
    var debt1 := debt.(spare := debt.spare + {b});
    TakeBlocks(fs, debt, fs1, {b});
    BitsOnly(fs, fs1, {b}, debt.newborn);
    NoSuchName(fs, debt, p, r.name);
    forall q: Query ensures RecCnt(blk2[b].recs, 0, q) == One(Hit(q, r)) { SoleCounts(blk2[b].recs, q); }
    SoleCounts(blk2[b].recs, Live);
    FreshNotSpare(fs, debt, b);
    GrowDir(fs1, debt1, p, b, blk2, i2, r);
    assert debt1.spare - {b} == debt.spare;
    WriteSpare(fs1, debt1, blk2, {b});
    assert forall k: nat | k < |fs.inodes| && Counted(fs, debt.newborn, k) :: Misses(fs.blk, fs.inodes[k], {b});
    UnwrittenRead(fs, debt.newborn, blk2, {b}, p);
    OthersKeptBy(fs, debt.newborn, fs.(blk := blk2), fs1.(blk := blk2, inodes := fs.inodes[p := i2]), p);
    GrownLookup(fs, debt, blk2, b, p, i2, r);
  }

  lemma FreshNotSpare(fs: Fs, debt: Debt, b: nat)
    requires InvX(fs, debt) && !Alloc(fs, b)
    ensures b !in debt.spare
  {}

  lemma BitsOnly(fs: Fs, fs1: Fs, t: set<nat>, n: nat)
    requires BitsSet(fs, fs1, t, true)
    ensures Shape(fs1) && fs1.blk == fs.blk && fs1.inodes == fs.inodes && fs1.geo == fs.geo && fs1.ibits == fs.ibits && fs1.usedD == fs.usedD
    ensures forall k: nat :: Counted(fs1, n, k) == Counted(fs, n, k)
  {}

  lemma OthersKeptBy(fs: Fs, n: nat, fs1: Fs, fs2: Fs, p: nat)
    requires OthersRead(fs, n, fs1, p) && fs2.blk == fs1.blk && |fs2.inodes| == |fs1.inodes|
    requires forall k: nat | k < |fs1.inodes| && k != p :: fs1.inodes[k] == fs2.inodes[k]
    ensures OthersRead(fs, n, fs2, p)
  {
    hide FileBytes, Lookup, IsDir, IsReg, Counted, Shape;
    forall k: nat | k < |fs.inodes| && k != p && Counted(fs, n, k) ensures SameReading(fs, fs2, k) {
      assert SameReading(fs, fs1, k);
    }
  }

  lemma GrownLookup(fs: Fs, debt: Debt, blk2: seq<Block>, b: nat, p: nat, i2: Inode, r: Rec)
    requires CanAppend(fs, debt, p, r.ino, r.ftype, r.name) && fs.inodes[p].size / BS < 12
    requires 0 < b < |fs.blk| && SameBut(fs.blk, blk2, {b}) && Misses(fs.blk, fs.inodes[p], {b})
    requires blk2[b].recs[0] == r && r.recLen == BS && 8 + |r.name| <= BS
    requires i2 == fs.inodes[p].(block := fs.inodes[p].block[fs.inodes[p].size / BS := b],
                                 size := fs.inodes[p].size + BS, blocks := fs.inodes[p].blocks + BS / 512)
    ensures forall nm: string ::
              Lookup(blk2, i2, nm) == if nm == r.name then Entry(r.ino, r.ftype) else Lookup(fs.blk, fs.inodes[p], nm)
    ensures IsDir(i2)
  {
    hide InvX, Shape, Counted, DirCnt, Lookup, FindFrom, Tiles;
    var i := fs.inodes[p];
    var nb := i.size / BS;
    SlotPrefix(fs, debt, p);
    NoSuchName(fs, debt, p, r.name);
    DirHasTree(i);
    DirFrame(fs.blk, blk2, {b}, i);
    forall y: nat | y < nb ensures i2.block[y] != 0 && FindFrom(blk2[i2.block[y]].recs, 0, r.name).ino == 0 {
      assert i2.block[y] == i.block[y];
      NoneInBlock(blk2, i, r.name, y);
    }
    SoleCounts(blk2[b].recs, Live);
    assert DirShape(blk2, i2) by { GrownShape(blk2, i, i2, b); }
    forall nm: string ensures Lookup(blk2, i2, nm) == if nm == r.name then Entry(r.ino, r.ftype) else Lookup(blk2, i, nm) {
      SoleFind(blk2[b].recs, nm);
      if nm == r.name {
        LookupHit(blk2, i2, nm, nb, r, 0);
      } else {
        LookupLonger(blk2, i, i2, nb, nm, 0);
      }
    }
  }

  lemma GrownShape(d: seq<Block>, i: Inode, i2: Inode, b: nat)
    requires DirShape(d, i) && i.size / BS < 12 && 0 < b < |d| && Tiles(d[b].recs, 0)
    requires i2.block == i.block[i.size / BS := b] && i2.size == i.size + BS && i2.blocks == i.blocks + BS / 512
    ensures DirShape(d, i2)
  {
    hide Tiles;
    forall j | 0 <= j < i2.size / BS ensures i2.block[j] < |d| && Tiles(d[i2.block[j]].recs, 0) {
      if j < i.size / BS { assert i2.block[j] == i.block[j]; }
    }
  }

  lemma SoleFind(recs: seq<Rec>, nm: string)
    requires |recs| == BS && recs[0].recLen == BS
    ensures FindFrom(recs, 0, nm) == if Hit(ByName(nm), recs[0]) then recs[0] else Rec(0, 0, 0, "")
  {
    assert FindFrom(recs, BS, nm) == Rec(0, 0, 0, "");
  }

  lemma {:induction false} LookupLonger(d: seq<Block>, i: Inode, i2: Inode, nb: nat, nm: string, j: nat)
    requires j <= nb < 12 && DirShape(d, i) && i.size / BS == nb
    requires i2.block == i.block[nb := i2.block[nb]] && 0 < i2.block[nb] < |d|
    requires FindFrom(d[i2.block[nb]].recs, 0, nm).ino == 0
    ensures Lookup(d, i2, nm, j) == Lookup(d, i, nm, j)
    decreases nb - j
  {
    if j < nb {
      LookupLonger(d, i, i2, nb, nm, j + 1);
    } else {
      assert Lookup(d, i2, nm, nb) == Lookup(d, i2, nm, nb + 1);
    }
  }

  /** ext2_append_dirent_at: into the first slack that is wide enough, else into a new block. */
  method AppendDirent(v: Volume, dirIno: nat, child: nat, ftype: nat, name: string, ghost debt: Debt) returns (ok: bool)
    requires v.Synced() && InvX(v.fs, debt) && NameOK(name)
    requires 1 <= dirIno <= |v.fs.inodes|
    requires IsDir(v.fs.inodes[dirIno - 1]) ==> CanAppend(v.fs, debt, dirIno - 1, child, ftype, name)
    modifies v`dev, v`fs, v`sb, v`gd
    ensures v.Synced()
    ensures ok <==> DirRoom(old(v.fs), dirIno - 1, name)
    ensures ok ==> InvX(v.fs, After(debt, dirIno - 1, ftype)) && |v.fs.inodes| == |old(v.fs).inodes|
    ensures ok ==> Listed(old(v.fs), v.fs, dirIno - 1, child, ftype, name)
    ensures ok ==> OthersRead(old(v.fs), debt.newborn, v.fs, dirIno - 1)
    ensures ok ==> v.fs.ibits == old(v.fs).ibits && v.fs.usedD == old(v.fs).usedD && v.fs.geo == old(v.fs).geo
  {
    hide InvX, Rep, Loaded, Counted, Inserted, OnChain, Listed, OthersRead, Lookup;
    assert |v.fs.inodes| == v.fs.geo.Inodes() by { ShapeOf(v.fs, debt); }
    ghost var p := dirIno - 1;
    var got, dir := v.ReadInode(dirIno);
    if !got || !IsDir(dir) { return false; }
    SlotPrefix(v.fs, debt, p);
    var need := MinRec(|name|);
    var bi := 0;
    while bi < 12 && dir.block[bi] != 0
      invariant 0 <= bi <= 12 && v.Synced() && v.fs == old(v.fs)
      invariant forall x | 0 <= x < bi :: !SlackIn(v.fs, dir, name, x)
    {
      DirBlockPlace(v.fs, debt, p, bi);
      DirBlockOnDisk(v.dev, v.fs, debt, p, bi);
      var recs := v.dev[dir.block[bi]].recs;
      var pos := FindSlack(recs, need);
      assert pos < BS <==> SlackIn(v.fs, dir, name, bi);
      if pos < BS {
        var recs2, r := InsertRec(recs, pos, child, ftype, name);
        PutInDir(v, debt, p, bi, dir.block[bi], recs2);
        SlackUsed(old(v.fs), debt, p, bi, v.fs.blk, pos, r);
        ok := v.WriteInode(dirIno, dir);
        assert v.fs.inodes == old(v.fs).inodes;
        return ok;
      }
      bi := bi + 1;
    }
    assert forall x | bi <= x < 12 :: dir.block[x] == 0;
    ok := AppendBlock(v, dirIno, dir, child, ftype, name, debt);
  }

  method PutInDir(v: Volume, ghost debt: Debt, ghost p: nat, ghost bi: nat, b: nat, recs: seq<Rec>)
    requires v.Synced() && InvX(v.fs, debt) && p < |v.fs.inodes| && Counted(v.fs, debt.newborn, p)
    requires IsDir(v.fs.inodes[p]) && bi < 12 && v.fs.inodes[p].block[bi] == b != 0 && |recs| == BS
    modifies v`dev, v`fs
    ensures v.Synced() && v.fs == old(v.fs).(blk := v.fs.blk)
    ensures b < |v.fs.blk| && SameBut(old(v.fs).blk, v.fs.blk, {b}) && v.fs.blk[b].recs == recs
  {
    DirBlockPlace(v.fs, debt, p, bi);
    LoadedOver(v.sb, v.gd, v.fs);
    v.PutRecs(b, recs);
  }

  /** Block 0 is allocated, and a picked block is free data. */
  lemma PickedBlock(fs: Fs, debt: Debt, b: nat)
    requires InvX(fs, debt) && b == Pick(fs, 0) != 0
    ensures b < fs.geo.blocks <= |fs.blk| && !Alloc(fs, b) && !fs.geo.IsMeta(b)
    ensures BitsSet(fs, WithBit(fs, b, true), {b}, true)
  {
    hide Pick, WithBit, Geo.IsMeta, Inodes, LinksMatch, InodeCounts;
    PickIsFree(fs, 0);
    WithBitSets(fs, b, true);
  }

  lemma ZeroTaken(fs: Fs, debt: Debt)
    requires InvX(fs, debt)
    ensures Alloc(fs, 0)
  {
    GroupEnds(fs.geo, 0);
    assert fs.geo.IsMeta(0);
  }

  /** No slack anywhere: the directory gets one more block, if a slot is left. */
  method AppendBlock(v: Volume, dirIno: nat, dir: Inode, child: nat, ftype: nat, name: string, ghost debt: Debt)
    returns (ok: bool)
    requires v.Synced() && 1 <= dirIno <= |v.fs.inodes| && dir == v.fs.inodes[dirIno - 1]
    requires CanAppend(v.fs, debt, dirIno - 1, child, ftype, name)
    modifies v`dev, v`fs, v`sb, v`gd
    ensures v.Synced()
    ensures ok <==> CanGrow(old(v.fs), dirIno - 1) && old(v.fs).totB > 0
    ensures ok ==> InvX(v.fs, After(debt, dirIno - 1, ftype)) && |v.fs.inodes| == |old(v.fs).inodes|
    ensures ok ==> Listed(old(v.fs), v.fs, dirIno - 1, child, ftype, name)
    ensures ok ==> OthersRead(old(v.fs), debt.newborn, v.fs, dirIno - 1)
    ensures ok ==> v.fs.ibits == old(v.fs).ibits && v.fs.usedD == old(v.fs).usedD && v.fs.geo == old(v.fs).geo
  {
    hide Shape, Alloc, BlockCounts, Loaded, Rep;
    hide InvX, Counted, Listed, OthersRead, Lookup, Pick, WithBit, Geo.IsMeta, Geo.Valid, Stored, Counters;
    ghost var fs0, p := v.fs, dirIno - 1;
    SlotPrefix(fs0, debt, p);
    ShapeOf(fs0, debt);
    var slot := 0;
    while slot < 12 && dir.block[slot] != 0
      invariant 0 <= slot <= 12 && forall x | 0 <= x < slot :: dir.block[x] != 0
    {
      slot := slot + 1;
    }
    if slot == 12 {
      assert dir.size / BS == 12;
      return false;
    }
    assert dir.block[dir.size / BS] == 0 && slot == dir.size / BS;
    ZeroTaken(fs0, debt);
    RoomLeft(fs0, debt);
    var extra := AllocBlock(v);
    if extra == 0 { return false; }
    PickedBlock(fs0, debt, extra);
    ghost var fs1 := v.fs;
    BitsOnly(fs0, fs1, {extra}, debt.newborn);
    var recs := SoleRec(child, ftype, name);
    LoadedOver(v.sb, v.gd, v.fs);
    assert |v.dev| == |fs1.blk| by { DeviceLen(v.dev, fs1); }
    v.PutRecs(extra, recs);
    ghost var blk2 := v.fs.blk;
    var grown := dir.(block := dir.block[slot := extra], size := dir.size + BS, blocks := dir.blocks + BS / 512);
    ok := v.WriteInode(dirIno, grown);
    BlockAdded(fs0, debt, fs1, extra, blk2, p, grown, recs[0]);
    assert v.fs == fs1.(blk := blk2, inodes := fs0.inodes[p := grown]);
  }

  // ---- removal ----

  /** Where the name is, and the record before it (-1 for the first). */
  method FindPlace(recs: seq<Rec>, name: string) returns (pos: nat, prev: int)
    requires |recs| == BS
    ensures pos <= BS
    ensures pos == BS ==> FindFrom(recs, 0, name).ino == 0
    ensures pos < BS ==> RecFits(recs, pos) && recs[pos] == FindFrom(recs, 0, name) && Hit(ByName(name), recs[pos])
    ensures pos < BS && prev < 0 ==> pos == 0
    ensures pos < BS && prev >= 0 ==> prev < pos && RecFits(recs, prev) && prev + recs[prev].recLen == pos
    ensures pos < BS && prev >= 0 ==> OnChain(recs, 0, prev)
  {
    pos, prev := 0, -1;
    while pos + 8 <= BS
      invariant 0 <= pos <= BS && -1 <= prev && FindFrom(recs, 0, name) == FindFrom(recs, pos, name)
      invariant OnChain(recs, 0, pos)
      invariant prev < 0 ==> pos == 0
      invariant prev >= 0 ==> prev < pos && RecFits(recs, prev) && prev + recs[prev].recLen == pos
      invariant prev >= 0 ==> OnChain(recs, 0, prev)
    {
      var de := recs[pos];
      if de.recLen < 8 || pos + de.recLen > BS { break; }
      if de.ino != 0 && |de.name| == |name| && de.name == name { return; }
      ChainNext(recs, 0, pos);
      prev := pos;
      pos := pos + de.recLen;
    }
    pos := BS;
  }

  /** recs2 is recs without the record at pos. */
  ghost predicate Removed(recs: seq<Rec>, recs2: seq<Rec>, pos: nat) {
    && |recs| == |recs2| == BS && pos < BS
    && ((pos == 0 && Blanked(recs, recs2))
        || (exists prev: nat :: Merged(recs, recs2, prev, pos) && OnChain(recs, 0, prev)))
  }

  lemma RemovedCounts(recs: seq<Rec>, recs2: seq<Rec>, pos: nat, q: Query)
    requires Removed(recs, recs2, pos) && Tiles(recs, 0)
    ensures RecCnt(recs, 0, q) == RecCnt(recs2, 0, q) + One(Hit(q, recs[pos]))
    ensures Tiles(recs2, 0)
  {
    hide Merged, Blanked, Tiles;
    if pos == 0 && Blanked(recs, recs2) {
      BlankCounts(recs, recs2, q);
    } else {
      var prev: nat :| Merged(recs, recs2, prev, pos) && OnChain(recs, 0, prev);
      MergeCounts(recs, recs2, 0, prev, pos, q);
    }
  }

  lemma RemovedFind(recs: seq<Rec>, recs2: seq<Rec>, pos: nat, nm: string)
    requires Removed(recs, recs2, pos) && Tiles(recs, 0) && nm != recs[pos].name
    ensures SameTarget(FindFrom(recs2, 0, nm), FindFrom(recs, 0, nm))
  {
    hide Merged, Blanked, Tiles;
    if pos == 0 && Blanked(recs, recs2) {
      BlankFind(recs, recs2, nm);
    } else {
      var prev: nat :| Merged(recs, recs2, prev, pos) && OnChain(recs, 0, prev);
      MergeFind(recs, recs2, 0, prev, pos, nm);
    }
  }

  /** Directory p no longer lists name. */
  ghost predicate Unlisted(fs1: Fs, fs2: Fs, p: nat, name: string)
    requires p < |fs1.inodes| == |fs2.inodes|
  {
    && fs2.inodes[p] == fs1.inodes[p]
    && forall nm: string :: Lookup(fs2.blk, fs2.inodes[p], nm) == if nm == name then Missing else Lookup(fs1.blk, fs1.inodes[p], nm)
  }

  lemma EntryRemoved(fs: Fs, p: nat, j: nat, blk2: seq<Block>, pos: nat)
    requires pos < BS && Inv(fs) && p < |fs.inodes| && Counted(fs, 0, p) && IsDir(fs.inodes[p]) && j < 12
    requires 0 < fs.inodes[p].block[j] < |fs.blk| && SameBut(fs.blk, blk2, {fs.inodes[p].block[j]})
    requires Removed(fs.blk[fs.inodes[p].block[j]].recs, blk2[fs.inodes[p].block[j]].recs, pos)
    requires var r := fs.blk[fs.inodes[p].block[j]].recs[pos]; r.ino != 0 && r.ftype != 2
    ensures var r := fs.blk[fs.inodes[p].block[j]].recs[pos];
      && InvX(fs.(blk := blk2), NO_DEBT.(lone := r.ino))
      && Unlisted(fs, fs.(blk := blk2), p, r.name)
      && OthersRead(fs, 0, fs.(blk := blk2), p)
      && AlikeBut(fs, 0, fs.(blk := blk2), 0, p)
  {
    hide Removed, InvX, Shape, Tiles, Counted, Lookup, DirCnt, IsDir, FindFrom, Alike;
    assert Shape(fs) by { ShapeOf(fs, NO_DEBT); }
    var i, b := fs.inodes[p], fs.inodes[p].block[j];
    var recs, recs2 := fs.blk[b].recs, blk2[b].recs;
    var r := recs[pos];
    DirBlockPlace(fs, NO_DEBT, p, j);
    forall q: Query ensures RecCnt(recs, 0, q) == RecCnt(recs2, 0, q) + One(Hit(q, r)) {
      RemovedCounts(recs, recs2, pos, q);
    }
    RemovedCounts(recs, recs2, pos, Live);
    RemoveEntry(fs, NO_DEBT, p, j, blk2, r);
    DirOthers(fs, NO_DEBT, p, j, blk2);
    DirBlockWritten(fs, NO_DEBT, p, j, blk2);
    CountedOver(fs, blk2, 0, p);
    SlotPrefix(fs.(blk := blk2), NO_DEBT.(lone := r.ino), p);
    UnlistedNow(fs, p, j, blk2, pos);
  }

  lemma UnlistedNow(fs: Fs, p: nat, j: nat, blk2: seq<Block>, pos: nat)
    requires pos < BS && Inv(fs) && p < |fs.inodes| && Counted(fs, 0, p) && IsDir(fs.inodes[p]) && j < 12
    requires 0 < fs.inodes[p].block[j] < |fs.blk| && SameBut(fs.blk, blk2, {fs.inodes[p].block[j]})
    requires Removed(fs.blk[fs.inodes[p].block[j]].recs, blk2[fs.inodes[p].block[j]].recs, pos)
    requires fs.blk[fs.inodes[p].block[j]].recs[pos].ino != 0 && DirShape(blk2, fs.inodes[p])
    ensures Unlisted(fs, fs.(blk := blk2), p, fs.blk[fs.inodes[p].block[j]].recs[pos].name)
  {
    hide Removed, InvX, Shape, Tiles, Counted, Lookup, DirCnt, IsDir, FindFrom, DirShape;
    var i, b := fs.inodes[p], fs.inodes[p].block[j];
    var recs, recs2 := fs.blk[b].recs, blk2[b].recs;
    var r := recs[pos];
    DirBlockPlace(fs, NO_DEBT, p, j);
    RemovedCounts(recs, recs2, pos, ByName(r.name));
    SlotsDiffer(fs, NO_DEBT, p, j);
    UniqueName(fs, NO_DEBT, p, r.name);
    DirCntAt(blk2, fs.blk, i, j, ByName(r.name), 12);
    assert DirCnt(blk2, i, ByName(r.name)) == 0;
    MissingMeansNone(blk2, i, r.name);
    forall nm: string ensures Lookup(blk2, i, nm) == if nm == r.name then Missing else Lookup(fs.blk, i, nm) {
      if nm != r.name {
        RemovedFind(recs, recs2, pos, nm);
        LookupSame(fs.blk, blk2, i, nm, b, 0);
      }
    }
  }

  /** No name occurs twice in a directory. */
  lemma UniqueName(fs: Fs, debt: Debt, k: nat, nm: string)
    requires InvX(fs, debt) && k < |fs.inodes| && Counted(fs, debt.newborn, k) && IsDir(fs.inodes[k])
    ensures DirCnt(fs.blk, fs.inodes[k], ByName(nm)) <= 1
  {
    assert InodeOK(fs, debt, k);
  }

  /** The removing loop of ext2_unlink_at. */
  method RemoveDirent(v: Volume, ghost p: nat, dir: Inode, name: string, ghost ino: nat, ghost ftype: nat)
    returns (removed: bool)
    requires v.Synced() && Inv(v.fs) && p < |v.fs.inodes| && Counted(v.fs, 0, p) && dir == v.fs.inodes[p] && IsDir(dir)
    requires Lookup(v.fs.blk, dir, name) == Entry(ino, ftype) && ftype != 2
    modifies v`dev, v`fs
    ensures removed && v.Synced() && v.fs == old(v.fs).(blk := v.fs.blk) && |v.fs.inodes| == |old(v.fs).inodes|
    ensures InvX(v.fs, NO_DEBT.(lone := ino))
    ensures Unlisted(old(v.fs), v.fs, p, name) && OthersRead(old(v.fs), 0, v.fs, p)
    ensures AlikeBut(old(v.fs), 0, v.fs, 0, p)
  {
    hide InvX, Rep, Loaded, Counted, Merged, Blanked, OnChain, Unlisted, OthersRead, AlikeBut;
    SlotPrefix(v.fs, NO_DEBT, p);
    var bi := 0;
    while bi < 12 && dir.block[bi] != 0
      invariant 0 <= bi <= 12 && v.fs == old(v.fs) && v.dev == old(v.dev)
      invariant Lookup(v.fs.blk, dir, name) == Lookup(v.fs.blk, dir, name, bi)
    {
      DirBlockPlace(v.fs, NO_DEBT, p, bi);
      DirBlockOnDisk(v.dev, v.fs, NO_DEBT, p, bi);
      var recs := v.dev[dir.block[bi]].recs;
      var pos, prev := FindPlace(recs, name);
      if pos < BS {
        var recs2;
        if prev >= 0 {
          recs2 := MergeRec(recs, prev, pos);
        } else {
          recs2 := BlankRec(recs);
        }
        assert Removed(recs, recs2, pos) by { KeptLength(recs, recs2, prev, pos); }
        PutInDir(v, NO_DEBT, p, bi, dir.block[bi], recs2);
        EntryRemoved(old(v.fs), p, bi, v.fs.blk, pos);
        return true;
      }
      bi := bi + 1;
    }
    assert false;
    return false;
  }

  lemma KeptLength(recs: seq<Rec>, recs2: seq<Rec>, prev: int, pos: nat)
    requires if prev >= 0 then Merged(recs, recs2, prev, pos) else Blanked(recs, recs2)
    ensures |recs2| == BS
  {}
}
