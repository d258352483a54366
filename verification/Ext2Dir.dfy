/** Looking names up, adding and removing directory entries. */
module Ext2Dir {
  import opened Sums
  import opened Ext2Layout
  import opened Ext2State
  import opened Ext2Frames
  import opened Ext2Steps
  import opened Ext2DirSteps
  import opened Ext2Records
  import opened Ext2Volume
  import opened Ext2Bitmaps
  import opened Ext2Engine
  import opened Ext2Alloc

  predicate NameOK(name: string) { 0 < |name| <= 255 }

  ghost predicate DirIno(fs: Fs, ino: nat) { 1 <= ino <= |fs.inodes| && IsDir(fs.inodes[ino - 1]) }

  /** What ext2_find_entry_at answers about directory ino. */
  ghost function Find(fs: Fs, ino: nat, name: string): Found {
    if NameOK(name) && DirIno(fs, ino) then Lookup(fs.blk, fs.inodes[ino - 1], name) else Missing
  }

  /** Directory ino lists itself and its parent, and nothing else. */
  ghost predicate OnlyDots(fs: Fs, ino: nat, up: nat) {
    forall nm: string :: Find(fs, ino, nm) == if nm == "." then Entry(ino, 2) else if nm == ".." then Entry(up, 2) else Missing
  }

  /** A directory in use: its blocks are data blocks of the device. */
  lemma DirBlockPlace(fs: Fs, debt: Debt, k: nat, j: nat)
    requires InvX(fs, debt) && k < |fs.inodes| && Counted(fs, debt.newborn, k) && IsDir(fs.inodes[k])
    requires j < 12 && fs.inodes[k].block[j] != 0
    ensures Ours(fs, debt.spare, fs.inodes[k].block[j]) && fs.inodes[k].block[j] < |fs.blk|
    ensures Tiles(fs.blk[fs.inodes[k].block[j]].recs, 0)
    ensures TreeCnt(fs.blk, fs.inodes[k], fs.inodes[k].block[j]) >= 1
  {
    hide TreeCnt, Geo.IsMeta, Geo.Valid, Tiles, DirCnt, LinksMatch, BlockCounts, InodeCounts;
    assert InodeOK(fs, debt, k);
    DirHasTree(fs.inodes[k]);
    SlotMet(fs.blk, fs.inodes[k], j);
    TreeIsOurs(fs, debt, k, fs.inodes[k].block[j]);
  }

  lemma DirBlockOnDisk(dev: seq<Block>, fs: Fs, debt: Debt, k: nat, j: nat)
    requires Rep(dev, fs) && InvX(fs, debt) && k < |fs.inodes| && Counted(fs, debt.newborn, k) && IsDir(fs.inodes[k])
    requires j < 12 && fs.inodes[k].block[j] != 0
    ensures fs.inodes[k].block[j] < |dev| && dev[fs.inodes[k].block[j]] == fs.blk[fs.inodes[k].block[j]]
  {
    hide InvX, Counters, TreeCnt, IsDir, Counted;
    DirBlockPlace(fs, debt, k, j);
  }

  lemma SlotPrefix(fs: Fs, debt: Debt, k: nat)
    requires InvX(fs, debt) && k < |fs.inodes| && Counted(fs, debt.newborn, k) && IsDir(fs.inodes[k])
    ensures DirShape(fs.blk, fs.inodes[k])
  {
    assert InodeOK(fs, debt, k);
  }

  /** ext2_find_entry_at: 1 found, 0 absent, negative for a bad name or no directory. */
  method FindEntry(v: Volume, dirIno: nat, name: string, ghost debt: Debt) returns (rc: int, ino: nat, ftype: nat)
    requires v.Synced() && InvX(v.fs, debt)
    requires 1 <= dirIno <= |v.fs.inodes| ==> Counted(v.fs, debt.newborn, dirIno - 1)
    ensures rc == 1 <==> Find(v.fs, dirIno, name).Entry?
    ensures rc == 1 ==> Find(v.fs, dirIno, name) == Entry(ino, ftype)
    ensures rc == 0 <==> NameOK(name) && DirIno(v.fs, dirIno) && Find(v.fs, dirIno, name) == Missing
    ensures rc <= 1
  {
    hide InvX, Rep, Loaded, Counted;
    ino, ftype := 0, 0;
    if |name| == 0 { return -1, 0, 0; }
    assert |v.fs.inodes| == v.fs.geo.Inodes() by { ShapeOf(v.fs, debt); }
    var ok, dir := v.ReadInode(dirIno);
    if !ok { return -2, 0, 0; }
    if !IsDir(dir) { return -3, 0, 0; }
    if |name| > 255 { return -4, 0, 0; }
    var bi := 0;
    while bi < 12 && dir.block[bi] != 0
      invariant 0 <= bi <= 12
      invariant Lookup(v.fs.blk, dir, name) == Lookup(v.fs.blk, dir, name, bi)
    {
      DirBlockPlace(v.fs, debt, dirIno - 1, bi);
      DirBlockOnDisk(v.dev, v.fs, debt, dirIno - 1, bi);
      var r := FindInBlock(v.dev[dir.block[bi]].recs, name);
      if r.ino != 0 { return 1, r.ino, r.ftype; }
      bi := bi + 1;
    }
    return 0, 0, 0;
  }

  lemma ShapeOf(fs: Fs, debt: Debt)
    requires InvX(fs, debt)
    ensures Shape(fs) && |fs.inodes| == fs.geo.Inodes()
  {}

  method FindInBlock(blk: seq<Rec>, name: string) returns (r: Rec)
    requires |blk| == BS
    ensures r == FindFrom(blk, 0, name)
  {
    var pos := 0;
    while pos + 8 <= BS
      invariant 0 <= pos <= BS && FindFrom(blk, 0, name) == FindFrom(blk, pos, name)
    {
      var de := blk[pos];
      if de.recLen < 8 || pos + de.recLen > BS { break; }
      if de.ino != 0 && |de.name| == |name| && de.name == name { return de; }
      pos := pos + de.recLen;
    }
    return Rec(0, 0, 0, "");
  }

  /** Following a list of names from inode ino; 0 when it leads nowhere. */
  ghost function PathTo(fs: Fs, ino: nat, comps: seq<string>): nat
    decreases |comps|
  {
    if comps == [] then ino
    else match Find(fs, ino, comps[0])
      case Missing => 0
      case Entry(x, _) => PathTo(fs, x, comps[1..])
  }

  /** A record names only inodes in use. */
  lemma {:induction false} RecNamesIno(recs: seq<Rec>, pos: nat, name: string)
    requires |recs| == BS
    ensures var r := FindFrom(recs, pos, name); r.ino != 0 ==> RecCnt(recs, pos, ByIno(r.ino)) > 0
    decreases BS - pos
  {
    if RecFits(recs, pos) {
      RecNamesIno(recs, pos + recs[pos].recLen, name);
    }
  }

  lemma {:induction false} DirCntSlot(d: seq<Block>, i: Inode, q: Query, j: nat, n: nat)
    requires j < n <= 12 && 0 < i.block[j] < |d|
    ensures DirCnt(d, i, q, n) >= RecCnt(d[i.block[j]].recs, 0, q)
  {
    if j < n - 1 { DirCntSlot(d, i, q, j, n - 1); }
  }

  lemma {:induction false} LookupNamesIno(d: seq<Block>, i: Inode, name: string, j: nat)
    requires j <= 12
    ensures match Lookup(d, i, name, j)
      case Missing => true
      case Entry(x, _) => x != 0 && DirCnt(d, i, ByIno(x)) > 0
    decreases 12 - j
  {
    if j < 12 {
      LookupNamesIno(d, i, name, j + 1);
      if 0 < i.block[j] < |d| {
        var r := FindFrom(d[i.block[j]].recs, 0, name);
        RecNamesIno(d[i.block[j]].recs, 0, name);
        DirCntSlot(d, i, ByIno(r.ino), j, 12);
      }
    }
  }

  lemma EntryInUse(fs: Fs, debt: Debt, k: nat, name: string)
    requires InvX(fs, debt) && debt.parent == 0 && k < |fs.inodes| && Counted(fs, debt.newborn, k)
    ensures match Find(fs, k + 1, name)
      case Missing => true
      case Entry(x, _) => 1 <= x <= |fs.inodes| && Counted(fs, debt.newborn, x - 1)
  {
    hide BlockCounts, InodeCounts, Ownership, Inodes, Geo.Valid, Lookup, DirCnt, IAlloc;
    var i := fs.inodes[k];
    LookupNamesIno(fs.blk, i, name, 0);
    match Find(fs, k + 1, name)
    case Missing =>
    case Entry(x, _) =>
      SumMember(|fs.inodes|, RefTerm(fs, debt.newborn, ByIno(x)), k);
      assert LinksOf(fs, debt.newborn, x) > 0;
      InodeIndex(fs, debt, x);
  }

  lemma InodeIndex(fs: Fs, debt: Debt, x: nat)
    requires Shape(fs) && LinksOf(fs, debt.newborn, x) > 0
    ensures 1 <= x <= |fs.inodes| && Counted(fs, debt.newborn, x - 1)
  {}

  /** ext2_resolve_path_at on the components of a path */
  method Resolve(v: Volume, comps: seq<string>) returns (ok: bool, ino: nat)
    requires v.Synced() && Inv(v.fs)
    ensures ok <==> PathTo(v.fs, 2, comps) != 0
    ensures ok ==> ino == PathTo(v.fs, 2, comps) && 1 <= ino <= |v.fs.inodes| && Counted(v.fs, 0, ino - 1)
  {
    hide InvX, Rep, Loaded, Counted, Find;
    RootInUse(v.fs);
    ino := 2;
    var i := 0;
    while i < |comps|
      invariant 0 <= i <= |comps| && 1 <= ino <= |v.fs.inodes| && Counted(v.fs, 0, ino - 1)
      invariant PathTo(v.fs, 2, comps) == PathTo(v.fs, ino, comps[i..])
    {
      assert comps[i..][0] == comps[i] && comps[i..][1..] == comps[i + 1..];
      var rc, next, _ := FindEntry(v, ino, comps[i], NO_DEBT);
      if rc != 1 { return false, 0; }
      EntryInUse(v.fs, NO_DEBT, ino - 1, comps[i]);
      ino := next;
      i := i + 1;
    }
    assert comps[i..] == [];
    return true, ino;
  }

  lemma RootInUse(fs: Fs)
    requires Inv(fs)
    ensures Shape(fs) && 2 <= |fs.inodes| && Counted(fs, 0, 1) && IsDir(fs.inodes[1])
  {}
}
