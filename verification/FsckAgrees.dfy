/** The checker and the writer agree: an image that represents a consistent state is clean. */
module FsckAgrees {
  import opened Sums
  import opened Ext2Layout
  import opened Ext2State
  import opened Ext2Frames
  import opened Ext2Volume
  import Ext2Dir
  import opened FsckBlocks
  import opened FsckDirectory
  import opened FsckSpec

  ghost function Image(dev: seq<Block>, fs: Fs): Img { Img(dev, fs.geo.blocks, fs.geo.Inodes()) }

  lemma Counts(geo: Geo, img: Img, g: nat)
    requires geo.Valid() && img.blocks == geo.blocks && img.inodes == geo.Inodes() && g < geo.groups
    ensures img.Groups() == geo.groups && img.GdBlocks() == geo.GdtBlocks()
    ensures img.NBlk(g) == geo.GroupBlocks(g) && img.NIno(g) == IPG
  {
    GroupEnds(geo, g);
  }

  lemma Geometry(dev: seq<Block>, fs: Fs)
    requires Rep(dev, fs)
    ensures Image(dev, fs).HasGeometry() && Image(dev, fs).Groups() == fs.geo.groups
  {
    Counts(fs.geo, Image(dev, fs), 0);
    GroupEnds(fs.geo, fs.geo.groups - 1);
  }

  lemma Descriptor(dev: seq<Block>, fs: Fs, g: nat)
    requires Rep(dev, fs) && g < fs.geo.groups
    ensures Image(dev, fs).HasGeometry() && g < Image(dev, fs).Groups()
    ensures DescIs(Image(dev, fs).Gd(g), fs, g)
  {
    Geometry(dev, fs);
    assert DescLoc(g) < |dev|;
  }

  lemma CanRead(dev: seq<Block>, fs: Fs)
    requires Rep(dev, fs)
    ensures Image(dev, fs).Readable() && Image(dev, fs).Groups() == fs.geo.groups
  {
    hide Img.Gd, Counters, Stored, Img.HasGeometry, Img.Groups, Img.NBlk, Img.NIno;
    Geometry(dev, fs);
    var img := Image(dev, fs);
    forall g: nat | g < img.Groups() ensures img.HasInodeMap(g) && img.HasBlockMap(g) {
      Descriptor(dev, fs, g);
      Counts(fs.geo, img, g);
      GroupEnds(fs.geo, g);
      DeviceLen(dev, fs);
    }
  }

  /** Bitmaps and inodes as the checker reads them are those of the state. */
  lemma SameBits(dev: seq<Block>, fs: Fs, b: nat)
    requires Rep(dev, fs) && Image(dev, fs).HasGeometry()
    ensures Image(dev, fs).BAlloc(b) == Alloc(fs, b)
  {
    hide Img.Gd, Img.HasGeometry;
    if b < fs.geo.blocks {
      Descriptor(dev, fs, b / BPG);
    }
  }

  lemma SameInode(dev: seq<Block>, fs: Fs, k: nat)
    requires Rep(dev, fs) && Image(dev, fs).Readable() && Image(dev, fs).Groups() == fs.geo.groups
    ensures Image(dev, fs).IAlloc(k) == IAlloc(fs, k)
    ensures Image(dev, fs).Checked(k) == Used(fs, k)
    ensures k < |fs.inodes| ==> k / IPG < fs.geo.groups && Image(dev, fs).InodeAt(k) == fs.inodes[k]
  {
    hide Img.Gd, Img.Readable, Counters, Img.Groups, Img.HasGeometry;
    if k < |fs.inodes| {
      Descriptor(dev, fs, k / IPG);
      InoPlace(fs.geo, k);
    }
  }

  // ---- trees ----

  ghost function MetaBlocks(fs: Fs): set<nat> { set b: nat | b < |fs.blk| && fs.geo.IsMeta(b) }

  /** No tree meets metadata. */
  lemma OffMeta(fs: Fs, k: nat)
    requires Inv(fs) && k < |fs.inodes| && Used(fs, k)
    ensures Misses(fs.blk, fs.inodes[k], MetaBlocks(fs))
  {
    hide Geo.IsMeta, TreeCnt, BlockCounts, InodeCounts, Inodes, LinksMatch;
    forall b | b in MetaBlocks(fs) ensures TreeCnt(fs.blk, fs.inodes[k], b) == 0 {
      SumMember(|fs.inodes|, OwnTerm(fs, 0, b), k);
      assert Own(fs, 0, b) == 0;
    }
  }

  lemma SameTrees(dev: seq<Block>, fs: Fs, k: nat)
    requires Inv(fs) && Rep(dev, fs) && k < |fs.inodes| && Used(fs, k)
    ensures SameBut(fs.blk, dev, MetaBlocks(fs)) && Misses(fs.blk, fs.inodes[k], MetaBlocks(fs))
    ensures forall b: nat :: TreeCnt(dev, fs.inodes[k], b) == TreeCnt(fs.blk, fs.inodes[k], b)
  {
    hide Geo.IsMeta, Counters, TreeCnt, InvX;
    OffMeta(fs, k);
    forall b: nat ensures TreeCnt(dev, fs.inodes[k], b) == TreeCnt(fs.blk, fs.inodes[k], b) {
      TreeFrame(fs.blk, dev, MetaBlocks(fs), fs.inodes[k], b);
    }
  }

  /** What a tree meets is allocated. */
  lemma MetIsOurs(fs: Fs, k: nat, b: nat)
    requires Inv(fs) && k < |fs.inodes| && Used(fs, k) && TreeCnt(fs.blk, fs.inodes[k], b) > 0
    ensures Alloc(fs, b) && !fs.geo.IsMeta(b)
  {
    hide Geo.IsMeta, TreeCnt, BlockCounts, InodeCounts, Inodes, LinksMatch;
    SumMember(|fs.inodes|, OwnTerm(fs, 0, b), k);
    assert Own(fs, 0, b) > 0;
  }

  lemma OwnedIsOwn(dev: seq<Block>, fs: Fs, b: nat)
    requires Inv(fs) && Rep(dev, fs) && Image(dev, fs).Readable() && Image(dev, fs).Groups() == fs.geo.groups
    ensures Image(dev, fs).Owned(|fs.inodes|, b) == Own(fs, 0, b)
  {
    var img := Image(dev, fs);
    hide Geo.IsMeta, TreeCnt, InvX, Rep, Img.HasInodeMap, Img.HasBlockMap, Img.HasGeometry, Img.Groups, Img.InodeAt, Img.Checked, Used, IAlloc;
    assert Shape(fs) by { Ext2Dir.ShapeOf(fs, NO_DEBT); }
    forall k: nat | k < |fs.inodes| ensures img.TreeTerm(b)(k) == OwnTerm(fs, 0, b)(k) {
      SameInode(dev, fs, k);
      if Used(fs, k) { SameTrees(dev, fs, k); }
    }
    SumEqual(|fs.inodes|, img.TreeTerm(b), OwnTerm(fs, 0, b));
  }

  // ---- directories ----

  /** Every slot of a directory below its size is one the checker scans. */
  lemma AllScanned(dev: seq<Block>, fs: Fs, allocd: seq<bool>, k: nat)
    requires Inv(fs) && Rep(dev, fs) && k < |fs.inodes| && Used(fs, k) && IsDir(fs.inodes[k])
    requires |allocd| == fs.geo.blocks && forall b: nat | b < |allocd| :: allocd[b] == Alloc(fs, b)
    ensures forall j: nat | j < 12 :: Scanned(allocd, fs.inodes[k], j) <==> fs.inodes[k].block[j] != 0
  {
    hide Geo.IsMeta, TreeCnt, BlockCounts, InodeCounts, LinksMatch, Ownership, Rep;
    var i := fs.inodes[k];
    assert Counted(fs, 0, k) && InodeOK(fs, NO_DEBT, k);
    forall j: nat | j < 12 ensures Scanned(allocd, i, j) <==> i.block[j] != 0 {
      if i.block[j] != 0 {
        SlotMet(fs.blk, i, j);
        MetIsOurs(fs, k, i.block[j]);
      }
    }
  }

  lemma {:induction false} ScanIsDirCnt(dev: seq<Block>, allocd: seq<bool>, i: Inode, q: Query, n: nat)
    requires n <= 12 && |allocd| <= |dev|
    requires forall j: nat | j < 12 :: Scanned(allocd, i, j) <==> i.block[j] != 0
    ensures ScanCnt(dev, allocd, i, q, n) == DirCnt(dev, i, q, n)
  {
    if n > 0 {
      ScanIsDirCnt(dev, allocd, i, q, n - 1);
      assert Scanned(allocd, i, n - 1) <==> i.block[n - 1] != 0;
    }
  }

  lemma SameDir(dev: seq<Block>, fs: Fs, allocd: seq<bool>, k: nat)
    requires Inv(fs) && Rep(dev, fs) && k < |fs.inodes| && Used(fs, k) && IsDir(fs.inodes[k])
    requires |allocd| == fs.geo.blocks && |allocd| <= |dev|
    requires forall b: nat | b < |allocd| :: allocd[b] == Alloc(fs, b)
    ensures forall q: Query :: ScanCnt(dev, allocd, fs.inodes[k], q, 12) == DirCnt(fs.blk, fs.inodes[k], q)
    ensures DirShape(dev, fs.inodes[k])
  {
    hide Geo.IsMeta, TreeCnt, BlockCounts, InodeCounts, LinksMatch, Ownership, Rep;
    var i := fs.inodes[k];
    assert Counted(fs, 0, k) && InodeOK(fs, NO_DEBT, k);
    SameTrees(dev, fs, k);
    DirFrame(fs.blk, dev, MetaBlocks(fs), i);
    AllScanned(dev, fs, allocd, k);
    forall q: Query ensures ScanCnt(dev, allocd, i, q, 12) == DirCnt(fs.blk, i, q) {
      ScanIsDirCnt(dev, allocd, i, q, 12);
    }
  }

  lemma RefsAreRefs(dev: seq<Block>, fs: Fs, x: nat)
    requires Inv(fs) && Rep(dev, fs) && Image(dev, fs).Readable() && Image(dev, fs).Groups() == fs.geo.groups
    ensures Image(dev, fs).References(|fs.inodes|, x) == Refs(fs, 0, ByIno(x))
  {
    hide BlockCounts, InodeCounts, Ownership, Sum;
    var img := Image(dev, fs);
    assert Shape(fs) by { Ext2Dir.ShapeOf(fs, NO_DEBT); }
    forall b: nat | b < img.blocks ensures img.Allocs()[b] == Alloc(fs, b) { SameBits(dev, fs, b); }
    hide Geo.IsMeta, TreeCnt, InvX, Rep, Img.HasInodeMap, Img.HasBlockMap, Img.HasGeometry, Img.Groups, Img.InodeAt, Img.Checked, Used,
      IAlloc, Alloc, Img.Allocs, ScanCnt, DirCnt, FileType;
    forall k: nat | k < |fs.inodes| ensures img.RefTerm(x)(k) == RefTerm(fs, 0, ByIno(x))(k) {
      SameInode(dev, fs, k);
      if Used(fs, k) && IsDir(fs.inodes[k]) { SameDir(dev, fs, img.Allocs(), k); }
    }
    SumEqual(|fs.inodes|, img.RefTerm(x), RefTerm(fs, 0, ByIno(x)));
  }

  // ---- metadata ----

  lemma MetaIsMeta(dev: seq<Block>, fs: Fs, b: nat)
    requires Rep(dev, fs) && Image(dev, fs).Readable() && Image(dev, fs).Groups() == fs.geo.groups
    ensures b < fs.geo.blocks ==> (Image(dev, fs).IsMetadata(b) <==> fs.geo.IsMeta(b))
  {
    var img, geo := Image(dev, fs), fs.geo;
    hide Img.Gd, Img.Readable, Counters, Stored, Img.HasGeometry, Img.Groups, Img.GdBlocks;
    forall g: nat | g < geo.groups
      ensures img.MetaOf(g, b) && b < geo.blocks ==> geo.IsMeta(b)
    {
      Descriptor(dev, fs, g);
      Counts(geo, img, g);
      GroupEnds(geo, g);
      if img.MetaOf(g, b) && b < geo.blocks { MetaPlace(geo, g, b - g * BPG); }
    }
    if b < geo.blocks && geo.IsMeta(b) {
      var g := b / BPG;
      Descriptor(dev, fs, g);
      Counts(geo, img, g);
      assert img.MetaOf(g, b);
    }
  }

  // ---- one group, one inode ----

  lemma MetaMarked(dev: seq<Block>, fs: Fs, g: nat, b: nat)
    requires Inv(fs) && Rep(dev, fs) && Image(dev, fs).HasGeometry() && g < fs.geo.groups
    requires g * BPG <= b < g * BPG + fs.geo.DataRel()
    ensures Image(dev, fs).BAlloc(b)
  {
    hide BlockCounts, InodeCounts, LinksMatch, Inodes, Counters, Stored, Own, Img.HasGeometry, Img.BAlloc, Geo.DataRel;
    GroupEnds(fs.geo, g);
    MetaPlace(fs.geo, g, b - g * BPG);
    assert fs.geo.IsMeta(b);
    assert Alloc(fs, b);
    SameBits(dev, fs, b);
  }

  lemma GroupMaps(dev: seq<Block>, fs: Fs, g: nat)
    requires Inv(fs) && Rep(dev, fs) && Image(dev, fs).Readable() && Image(dev, fs).Groups() == fs.geo.groups
    requires g < fs.geo.groups
    ensures var img, gd := Image(dev, fs), Image(dev, fs).Gd(g);
      && DescIs(gd, fs, g) && gd.blockBitmap < |dev| && gd.inodeBitmap < |dev|
      && dev[gd.blockBitmap].bits == fs.bits[g] && dev[gd.inodeBitmap].bits == fs.ibits[g]
      && gd.freeBlocks == Clear(fs.bits[g], img.NBlk(g)) && gd.freeInodes == Clear(fs.ibits[g], IPG)
      && (g == 0 ==> forall i: nat | i < 10 :: fs.ibits[0][i])
  {
    hide DirCounts;
    hide Img.Gd, Img.HasInodeMap, Img.HasBlockMap, Img.HasGeometry, Img.Groups, Clear, Ownership, LinksMatch, Counters, Img.NBlk,
      Geo.GroupBlocks, InodeOK, Used;
    Descriptor(dev, fs, g);
    Counts(fs.geo, Image(dev, fs), g);
    GroupEnds(fs.geo, g);
    if g == 0 {
      forall i: nat | i < 10 ensures fs.ibits[0][i] { assert IAlloc(fs, i); }
    }
  }

  lemma GroupIsSane(dev: seq<Block>, fs: Fs, g: nat)
    requires Inv(fs) && Rep(dev, fs) && Image(dev, fs).Readable() && Image(dev, fs).Groups() == fs.geo.groups
    requires g < fs.geo.groups
    ensures Image(dev, fs).GroupSane(g)
  {
    hide InvX, Rep, Img.Gd, Img.HasInodeMap, Img.HasBlockMap, Img.HasGeometry, Img.Groups, Img.BAlloc, Clear, Img.NBlk, Img.NIno,
      Geo.GroupBlocks, Img.GdBlocks, Geo.GdtBlocks, Geo.Valid;
    var img, geo := Image(dev, fs), fs.geo;
    Ext2Dir.ShapeOf(fs, NO_DEBT);
    GroupMaps(dev, fs, g);
    Counts(geo, img, g);
    GroupEnds(geo, g);
    forall b: nat | g * BPG <= b < g * BPG + geo.DataRel() ensures img.BAlloc(b) {
      MetaMarked(dev, fs, g, b);
    }
  }

  lemma InodeIsSane(dev: seq<Block>, fs: Fs, k: nat)
    requires Inv(fs) && Rep(dev, fs) && Image(dev, fs).Readable() && Image(dev, fs).Groups() == fs.geo.groups
    requires k < |fs.inodes| && Used(fs, k) && k / IPG < fs.geo.groups
    ensures Image(dev, fs).InodeSane(k)
  {
    hide BlockCounts, InodeCounts, Ownership, LinksMatch, Rep, Img.HasInodeMap, Img.HasBlockMap, Img.HasGeometry, Img.Groups, Img.InodeAt,
      DirSound, Img.Allocs, Img.IAllocs, DirShape, Used, IAlloc;
    SameInode(dev, fs, k);
    assert InodeOK(fs, NO_DEBT, k) by { assert Counted(fs, 0, k); }
    if IsDir(fs.inodes[k]) { DirIsSound(dev, fs, k); }
  }

  lemma SameAllocs(dev: seq<Block>, fs: Fs)
    requires Rep(dev, fs) && Image(dev, fs).HasGeometry()
    ensures |Image(dev, fs).Allocs()| == fs.geo.blocks <= |dev|
    ensures forall b: nat | b < fs.geo.blocks :: Image(dev, fs).Allocs()[b] == Alloc(fs, b)
  {
    forall b: nat | b < fs.geo.blocks ensures Image(dev, fs).Allocs()[b] == Alloc(fs, b) { SameBits(dev, fs, b); }
  }

  lemma DirIsSound(dev: seq<Block>, fs: Fs, k: nat)
    requires Inv(fs) && Rep(dev, fs) && Image(dev, fs).Readable() && Image(dev, fs).Groups() == fs.geo.groups
    requires k < |fs.inodes| && Used(fs, k) && IsDir(fs.inodes[k])
    ensures |Image(dev, fs).Allocs()| <= |dev|
    ensures DirSound(dev, Image(dev, fs).Allocs(), Image(dev, fs).IAllocs(), fs.inodes[k], 12)
  {
    hide Img.Allocs, Img.IAllocs, InvX, Rep, Img.HasInodeMap, Img.HasBlockMap, Img.HasGeometry, Img.Groups, Alloc, Used, FileType, Target;
    var img, i := Image(dev, fs), fs.inodes[k];
    Ext2Dir.ShapeOf(fs, NO_DEBT);
    SameAllocs(dev, fs);
    SameDir(dev, fs, img.Allocs(), k);
    AllScanned(dev, fs, img.Allocs(), k);
    forall j: nat | j < 12 && Scanned(img.Allocs(), i, j)
      ensures SoundFrom(dev[i.block[j]].recs, 0, img.IAllocs())
    {
      SoundMeans(dev[i.block[j]].recs, 0, img.IAllocs());
      forall x: nat | RecCnt(dev[i.block[j]].recs, 0, ByIno(x)) > 0 ensures Target(img.IAllocs(), x) {
        OneBlock(dev, i, ByIno(x), j, 12);
        ScanIsDirCnt(dev, img.Allocs(), i, ByIno(x), 12);
        NamedIsAlloc(dev, fs, k, x);
      }
    }
  }

  lemma {:induction false} OneBlock(d: seq<Block>, i: Inode, q: Query, j: nat, n: nat)
    requires j < n <= 12 && 0 < i.block[j] < |d|
    ensures RecCnt(d[i.block[j]].recs, 0, q) <= DirCnt(d, i, q, n)
  {
    if j < n - 1 { OneBlock(d, i, q, j, n - 1); }
  }

  /** Whatever a directory names is an allocated inode. */
  lemma NamedIsAlloc(dev: seq<Block>, fs: Fs, k: nat, x: nat)
    requires Inv(fs) && Rep(dev, fs) && Image(dev, fs).Readable() && Image(dev, fs).Groups() == fs.geo.groups
    requires k < |fs.inodes| && Used(fs, k) && IsDir(fs.inodes[k]) && DirCnt(fs.blk, fs.inodes[k], ByIno(x)) > 0
    ensures Target(Image(dev, fs).IAllocs(), x)
  {
    hide Geo.IsMeta, TreeCnt, DirCnt, BlockCounts, InodeCounts, Ownership, Rep, Img.HasInodeMap, Img.HasBlockMap, Img.HasGeometry,
      Img.Groups, Img.InodeAt, Inodes, FileType, Img.IAlloc;
    SumMember(|fs.inodes|, RefTerm(fs, 0, ByIno(x)), k);
    assert Counted(fs, 0, k);
    assert Refs(fs, 0, ByIno(x)) > 0;
    if x == 0 {
      NoneNamesZero(fs.blk, fs.inodes[k], 12);
    } else {
      assert LinksOf(fs, 0, x) > 0;
      SameInode(dev, fs, x - 1);
    }
  }

  lemma {:induction false} NoneNamesZero(d: seq<Block>, i: Inode, n: nat)
    requires n <= 12
    ensures DirCnt(d, i, ByIno(0), n) == 0
  {
    if n > 0 {
      NoneNamesZero(d, i, n - 1);
      if 0 < i.block[n - 1] < |d| { ZeroFree(d[i.block[n - 1]].recs, 0); }
    }
  }

  lemma {:induction false} ZeroFree(recs: seq<Rec>, pos: nat)
    requires |recs| == BS
    ensures RecCnt(recs, pos, ByIno(0)) == 0
    decreases BS - pos
  {
    if RecFits(recs, pos) { ZeroFree(recs, pos + recs[pos].recLen); }
  }

  // ---- totals ----

  lemma TotalsAgree(dev: seq<Block>, fs: Fs)
    requires Inv(fs) && Rep(dev, fs) && Image(dev, fs).Readable() && Image(dev, fs).Groups() == fs.geo.groups
    ensures Sum(fs.geo.groups, Image(dev, fs).FreeBlocksTerm()) == fs.totB
    ensures Sum(fs.geo.groups, Image(dev, fs).FreeInodesTerm()) == fs.totI
  {
    hide Clear;
    var img := Image(dev, fs);
    var fb: nat -> nat := (k: nat) => if k < |fs.freeB| then fs.freeB[k] else 0;
    var fi: nat -> nat := (k: nat) => if k < |fs.freeI| then fs.freeI[k] else 0;
    forall g: nat | g < fs.geo.groups
      ensures img.FreeBlocksTerm()(g) == fb(g) && img.FreeInodesTerm()(g) == fi(g)
    {
      hide Img.Gd, Img.HasInodeMap, Img.HasBlockMap, Img.HasGeometry, Img.Groups, Clear, Ownership, LinksMatch, Inodes, Counters;
      Descriptor(dev, fs, g);
      Counts(fs.geo, img, g);
      GroupEnds(fs.geo, g);
    }
    SumEqual(fs.geo.groups, img.FreeBlocksTerm(), fb);
    SumEqual(fs.geo.groups, img.FreeInodesTerm(), fi);
  }

  /** What the writer keeps, the checker accepts. */
  lemma Agree(dev: seq<Block>, fs: Fs)
    requires Inv(fs) && Rep(dev, fs)
    ensures Clean(dev)
  {
    hide Img.HasGeometry, Img.HasInodeMap, Img.HasBlockMap, Img.GroupSane, Img.InodeSane, Img.Owned, Img.BAlloc,
      Img.IsMetadata, Img.References, Img.LinksOf, Img.FreeBlocksTerm, Img.FreeInodesTerm, Img.Checked, Img.InodeAt,
      Img.Groups, InvX, Rep, Own, Geo.IsMeta, Refs, LinksOf, Img.IAlloc, Alloc, Used;
    var img := Image(dev, fs);
    CanRead(dev, fs);
    Ext2Dir.ShapeOf(fs, NO_DEBT);
    SuperBlock(dev, fs);
    TotalsAgree(dev, fs);
    forall g: nat | g < fs.geo.groups ensures img.GroupSane(g) { GroupIsSane(dev, fs, g); }
    forall k: nat | k < img.inodes && img.Checked(k) ensures k / IPG < fs.geo.groups && img.InodeSane(k) {
      SameInode(dev, fs, k);
      InodeIsSane(dev, fs, k);
    }
    forall b: nat
      ensures img.Owned(img.inodes, b) == if img.BAlloc(b) && !img.IsMetadata(b) then 1 else 0
    {
      OwnedOnce(dev, fs, b);
    }
    forall x: nat | img.CheckedIno(x) ensures img.References(img.inodes, x) == img.LinksOf(x) {
      LinksAgree(dev, fs, x);
    }
  }

  lemma SuperBlock(dev: seq<Block>, fs: Fs)
    requires Rep(dev, fs)
    ensures 1 <= |dev| && SuperIs(dev[0].super, fs)
  {}

  lemma OwnedOnce(dev: seq<Block>, fs: Fs, b: nat)
    requires Inv(fs) && Rep(dev, fs) && Image(dev, fs).Readable() && Image(dev, fs).Groups() == fs.geo.groups
    ensures var img := Image(dev, fs);
      img.Owned(img.inodes, b) == if img.BAlloc(b) && !img.IsMetadata(b) then 1 else 0
  {
    hide Img.HasInodeMap, Img.HasBlockMap, Img.HasGeometry, Img.Groups, Img.Owned, Img.BAlloc, Img.IsMetadata, Own, Geo.IsMeta, Rep,
      BlockCounts, InodeCounts, Inodes, LinksMatch;
    OwnedIsOwn(dev, fs, b);
    SameBits(dev, fs, b);
    MetaIsMeta(dev, fs, b);
  }

  lemma LinksAgree(dev: seq<Block>, fs: Fs, x: nat)
    requires Inv(fs) && Rep(dev, fs) && Image(dev, fs).Readable() && Image(dev, fs).Groups() == fs.geo.groups
    requires Image(dev, fs).CheckedIno(x)
    ensures var img := Image(dev, fs); img.References(img.inodes, x) == img.LinksOf(x)
  {
    hide Img.HasInodeMap, Img.HasBlockMap, Img.HasGeometry, Img.Groups, Img.References, Img.InodeAt, Refs, Rep,
      BlockCounts, InodeCounts, Inodes, Ownership, Used, Img.Checked;
    SameInode(dev, fs, x - 1);
    assert x - 1 < |fs.inodes| by { UsedInRange(fs, x - 1); }
    RefsAreRefs(dev, fs, x);
    assert Refs(fs, 0, ByIno(x)) == LinksOf(fs, 0, x);
  }

  lemma UsedInRange(fs: Fs, k: nat)
    requires Shape(fs) && Used(fs, k)
    ensures k < |fs.inodes|
  {}
}
