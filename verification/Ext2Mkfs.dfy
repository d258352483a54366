/** Formatting: mkfs_ext2_core makes a consistent volume on every device it accepts. */
module Ext2Mkfs {
  import opened Sums
  import opened Ext2Layout
  import opened Ext2State
  import opened Ext2Frames
  import opened Ext2Steps
  import opened Ext2DirSteps
  import opened Ext2Volume
  import opened Ext2Bitmaps
  import opened Ext2Dir
  import opened Ext2Mkdir
  import opened Ext2Engine

  /** The geometry for a device of the given size. */
  function GeoFor(bytes: nat): Geo { Geo(bytes / BS, (bytes / BS + BPG - 1) / BPG) }

  /** Sizes mkfs takes: 64 KiB at least, and a last group with room for its metadata and one block. */
  predicate CanFormat(bytes: nat) { bytes >= 64 * 1024 && GeoFor(bytes).Valid() }

  /** Group g has room for its metadata and at least one block more. */
  predicate GroupFits(geo: Geo, g: nat) {
    g < geo.groups <= 65535 && g * BPG <= geo.blocks && geo.DataRel() < geo.GroupBlocks(g)
  }

  lemma AllFit(geo: Geo)
    requires geo.Valid()
    ensures forall g: nat | g < geo.groups :: GroupFits(geo, g)
  {
    forall g: nat | g < geo.groups ensures GroupFits(geo, g) { GroupEnds(geo, g); }
  }

  /** A group begins with a superblock block and the table of 32-byte descriptors; two bitmaps of a block each and
      1024 inodes of 128 bytes follow, then the data. */
  lemma GroupLayout(geo: Geo, g: nat)
    requires geo.Valid() && g < geo.groups
    ensures var t := (32 * geo.groups + 4095) / 4096;
      && geo.BbLoc(g) == 32768 * g + 1 + t && geo.IbLoc(g) == geo.BbLoc(g) + 1 && geo.ItLoc(g) == geo.BbLoc(g) + 2
      && geo.DataRel() == 1 + t + 2 + 1024 * 128 / 4096
    ensures geo.GdtBlocks() == (32 * geo.groups + 4095) / 4096
  {}

  lemma FitEnds(geo: Geo, g: nat)
    requires GroupFits(geo, g)
    ensures geo.DataRel() <= 547 && geo.DataRel() < geo.GroupBlocks(g) <= BPG
    ensures g * BPG + geo.GroupBlocks(g) <= geo.blocks
  {}

  // ---- the fresh volume ----

  ghost function BlockMap(geo: Geo, g: nat): (s: seq<bool>)
    requires GroupFits(geo, g)
    ensures |s| == BPG
  {
    seq(BPG, (r: nat) => r < geo.DataRel() || r >= Room(geo, g) || (g == 0 && r == geo.DataRel()))
  }

  function Room(geo: Geo, g: nat): nat
    requires GroupFits(geo, g)
  {
    geo.GroupBlocks(g)
  }

  ghost function InodeMap(g: nat): (s: seq<bool>)
    ensures |s| == BPG
  {
    seq(BPG, (i: nat) => g == 0 && i < 10)
  }

  ghost function FreeBlocks(geo: Geo, g: nat): nat
    requires GroupFits(geo, g)
  {
    FitEnds(geo, g);
    Room(geo, g) - geo.DataRel() - One(g == 0)
  }

  ghost function FreeInodes(g: nat): nat { if g == 0 then IPG - 10 else IPG }

  function RootInode(b: nat): Inode { InodeFields(16877, BS, 0, 2, BS / 512, NO_BLOCKS[0 := b]) }

  ghost function Fresh(geo: Geo, dev: seq<Block>): Fs
    requires geo.Valid()
  {
    AllFit(geo);
    var freeB := seq(geo.groups, (g: nat) requires GroupFits(geo, g) => FreeBlocks(geo, g));
    var freeI := seq(geo.groups, (g: nat) => FreeInodes(g));
    Fs(geo, seq(geo.groups, (g: nat) requires GroupFits(geo, g) => BlockMap(geo, g)), freeB, Total(freeB),
       seq(geo.groups, (g: nat) => InodeMap(g)), freeI, Total(freeI),
       seq<nat>(geo.groups, (g: nat) => One(g == 0)),
       seq(geo.Inodes(), (k: nat) => if k == 1 then RootInode(geo.DataRel()) else ZERO_INODE), dev)
  }

  /** Clear bits between a and b, when exactly those are clear. */
  lemma {:induction false} ClearRange(bits: seq<bool>, a: nat, b: nat, n: nat)
    requires n <= |bits| && a <= b <= |bits| && forall r: nat | r < |bits| :: bits[r] <==> !(a <= r < b)
    ensures Clear(bits, n) == if n <= a then 0 else if n <= b then n - a else b - a
  {
    if n > 0 { ClearRange(bits, a, b, n - 1); }
  }

  lemma LastGroup(geo: Geo, g: nat)
    requires geo.Valid() && g < geo.groups
    ensures geo.DataRel() < geo.GroupBlocks(g) <= BPG && g * BPG + geo.GroupBlocks(g) <= geo.blocks
  {
    GroupEnds(geo, g);
  }

  lemma FreshCounts(geo: Geo, g: nat)
    requires GroupFits(geo, g)
    ensures Clear(BlockMap(geo, g), geo.GroupBlocks(g)) == FreeBlocks(geo, g)
    ensures Clear(InodeMap(g), IPG) == FreeInodes(g)
  {
    FitEnds(geo, g);
    var a := if g == 0 then geo.DataRel() + 1 else geo.DataRel();
    hide Geo.DataRel, Geo.GroupBlocks, Clear;
    ClearRange(BlockMap(geo, g), a, Room(geo, g), Room(geo, g));
    ClearRange(InodeMap(g), if g == 0 then 10 else 0, BPG, IPG);
  }

  /** The only inode in use is the root, and it owns one block. */
  lemma FreshInodes(geo: Geo, dev: seq<Block>)
    requires geo.Valid() && geo.blocks <= |dev|
    ensures var fs := Fresh(geo, dev);
      Shape(fs) && (forall k: nat :: IAlloc(fs, k) <==> k < 10) && (forall k: nat :: Used(fs, k) <==> k == 1)
  {
    var fs := Fresh(geo, dev);
    assert 1024 <= |fs.inodes|;
    forall k: nat ensures IAlloc(fs, k) <==> k < 10 {}
  }

  lemma FreshBits(geo: Geo, dev: seq<Block>, b: nat)
    requires geo.Valid() && geo.blocks <= |dev|
    ensures Shape(Fresh(geo, dev))
    ensures Alloc(Fresh(geo, dev), b) <==> b < geo.blocks && (geo.IsMeta(b) || b == geo.DataRel())
  {
    var fs, g, r := Fresh(geo, dev), b / BPG, b % BPG;
    LastGroup(geo, 0);
    if b < geo.blocks {
      LastGroup(geo, g);
      assert r < geo.GroupBlocks(g);
      AllFit(geo);
      assert g < geo.groups && fs.bits[g] == BlockMap(geo, g);
      assert r < Room(geo, g);
      assert BlockMap(geo, g)[r] == (r < geo.DataRel() || (g == 0 && r == geo.DataRel()));
    }
  }

  lemma FreshFree(geo: Geo, dev: seq<Block>)
    requires geo.Valid() && geo.blocks <= |dev|
    ensures Shape(Fresh(geo, dev)) && BlockCounts(Fresh(geo, dev)) && InodeCounts(Fresh(geo, dev))
  {
    var fs := Fresh(geo, dev);
    FreshInodes(geo, dev);
    AllFit(geo);
    forall g: nat | g < geo.groups
      ensures fs.freeB[g] == Clear(fs.bits[g], geo.GroupBlocks(g)) && fs.freeI[g] == Clear(fs.ibits[g], IPG)
    {
      FreshCounts(geo, g);
    }
  }

  lemma FreshRoot(geo: Geo, dev: seq<Block>)
    requires geo.Valid() && geo.blocks <= |dev|
    requires geo.DataRel() < |dev| && DotBlock(dev[geo.DataRel()].recs, 2, 2)
    ensures var fs, b := Fresh(geo, dev), geo.DataRel();
      && |fs.inodes| > 1 && fs.inodes[1] == RootInode(b) && NewDir(dev, fs.inodes[1], b, 1, 2)
      && b < geo.blocks && !geo.IsMeta(b) && fs.blk == dev && fs.geo == geo
  {
    FreshInodes(geo, dev);
    LastGroup(geo, 0);
  }

  /** The root is an empty directory, its own parent. */
  lemma EmptyRoot(geo: Geo, dev: seq<Block>)
    requires geo.Valid() && geo.blocks <= |dev|
    requires geo.DataRel() < |dev| && DotBlock(dev[geo.DataRel()].recs, 2, 2)
    ensures var fs := Fresh(geo, dev); |fs.inodes| > 1 && EmptyDir(fs.inodes[1], 0x1ED) && OnlyDots(fs, 2, 2)
  {
    hide Fresh, Geo.Valid, Geo.IsMeta, Geo.DataRel, DotBlock, Lookup;
    var fs := Fresh(geo, dev);
    FreshRoot(geo, dev);
    DotLookups(dev, fs.inodes[1], geo.DataRel(), 2, 2);
    hide NewDir;
    assert "." != "..";
  }

  lemma FreshIsConsistent(geo: Geo, dev: seq<Block>)
    requires geo.Valid() && geo.blocks <= |dev|
    requires geo.DataRel() < |dev| && DotBlock(dev[geo.DataRel()].recs, 2, 2)
    ensures Inv(Fresh(geo, dev))
  {
    hide Fresh, BlockCounts, InodeCounts, Geo.Valid, Geo.IsMeta, Geo.DataRel, Alloc, IAlloc, Used, NewDir, TreeCnt,
      DirCnt, DirShape, KnownType, DotBlock, Shape;
    var fs, b := Fresh(geo, dev), geo.DataRel();
    FreshInodes(geo, dev);
    FreshFree(geo, dev);
    FreshRoot(geo, dev);
    forall x: nat ensures Alloc(fs, x) <==> x < geo.blocks && (geo.IsMeta(x) || x == b) { FreshBits(geo, dev, x); }
    NewDirFacts(dev, fs.inodes[1], b, 1, 2);
    RootIsDir(fs.inodes[1], b);
    assert forall k: nat :: Counted(fs, 0, k) <==> k == 1;
    forall x: nat ensures Own(fs, 0, x) == One(x == b) {
      SumOne(|fs.inodes|, OwnTerm(fs, 0, x), 1);
    }
    forall x: nat | x > 0 ensures Refs(fs, 0, ByIno(x)) == LinksOf(fs, 0, x) {
      SumOne(|fs.inodes|, RefTerm(fs, 0, ByIno(x)), 1);
    }
    assert InodeOK(fs, NO_DEBT, 1);
    FreshDirs(geo, dev);
  }

  /** The root directory is the only one, in group 0. */
  lemma FreshDirs(geo: Geo, dev: seq<Block>)
    requires geo.Valid() && Shape(Fresh(geo, dev)) && geo.blocks <= |dev|
    requires forall k: nat :: Used(Fresh(geo, dev), k) <==> k == 1
    requires IsDir(Fresh(geo, dev).inodes[1])
    ensures DirCounts(Fresh(geo, dev), NO_DEBT)
  {
    hide Geo.Valid, Geo.DataRel, Geo.GroupBlocks, FileType, IAlloc, RootInode, BlockMap;
    var fs := Fresh(geo, dev);
    hide Used, Sum;
    forall g: nat | g < fs.geo.groups ensures fs.usedD[g] == GroupDirs(fs, 0, g) {
      var f := DirTerm(fs, 0, g);
      forall k: nat | k < IPG ensures f(k) == One(g == 0 && k == 1) {
        assert CountsAsDir(fs, 0, g * IPG + k) <==> g * IPG + k == 1;
      }
      if g == 0 { SumOne(IPG, f, 1); } else { SumZero(IPG, f); }
    }
  }

  lemma RootIsDir(i: Inode, b: nat)
    requires i == RootInode(b)
    ensures IsDir(i) && i.dtime == 0 && i.links == 2
  {}

  // ---- the formatter ----

  /** Bitmaps and an empty inode table of group g are on the device. */
  ghost predicate GroupMade(geo: Geo, dev: seq<Block>, g: nat)
    requires GroupFits(geo, g) && geo.blocks <= |dev|
  {
    FitEnds(geo, g);
    && dev[geo.BbLoc(g)].bits == BlockMap(geo, g) && dev[geo.IbLoc(g)].bits == InodeMap(g)
    && forall r: nat | r < ITB :: TableBlock(geo, dev, g, r).inodes == seq(ITB, _ => ZERO_INODE)
  }

  ghost function TableBlock(geo: Geo, dev: seq<Block>, g: nat, r: nat): Block
    requires GroupFits(geo, g) && geo.blocks <= |dev| && r < ITB
  {
    FitEnds(geo, g);
    dev[geo.ItLoc(g) + r]
  }

  /** Descriptor g as computed. */
  ghost predicate DescMade(geo: Geo, d: Group, g: nat)
    requires GroupFits(geo, g)
  {
    && d.blockBitmap == geo.BbLoc(g) && d.inodeBitmap == geo.IbLoc(g) && d.inodeTable == geo.ItLoc(g)
    && d.freeBlocks == FreeBlocks(geo, g) && d.freeInodes == FreeInodes(g) && d.usedDirs == One(g == 0)
  }

  /** The bitmap of one group's blocks, set bit by bit. */
  method MakeBlockMap(geo: Geo, g: nat, dataRel: nat, groupBlocks: nat) returns (bb: seq<bool>)
    requires GroupFits(geo, g) && dataRel == geo.DataRel() && groupBlocks == geo.GroupBlocks(g)
    ensures bb == BlockMap(geo, g)
  {
    FitEnds(geo, g);
    bb := seq(BPG, _ => false);
    var r := 0;
    while r < dataRel
      invariant 0 <= r <= dataRel && |bb| == BPG
      invariant forall x | 0 <= x < BPG :: bb[x] == (x < r)
    {
      bb := bb[r := true];
      r := r + 1;
    }
    r := groupBlocks;
    while r < BPG
      invariant groupBlocks <= r <= BPG && |bb| == BPG
      invariant forall x | 0 <= x < BPG :: bb[x] == (x < dataRel || groupBlocks <= x < r)
    {
      bb := bb[r := true];
      r := r + 1;
    }
    if g == 0 { bb := bb[dataRel := true]; }
    assert forall x: nat | x < BPG :: BlockMap(geo, g)[x] == (x < dataRel || x >= Room(geo, g) || (g == 0 && x == dataRel));
  }

  method MakeInodeMap(g: nat) returns (ib: seq<bool>)
    ensures ib == InodeMap(g)
  {
    ib := seq(BPG, _ => false);
    if g == 0 {
      var ino := 1;
      while ino <= 10
        invariant 1 <= ino <= 11 && |ib| == BPG && forall x | 0 <= x < BPG :: ib[x] == (x < ino - 1)
      {
        ib := ib[ino - 1 := true];
        ino := ino + 1;
      }
    }
  }

  /** Zeroed metadata, then the two bitmaps, of group g. */
  method MakeGroup(v: Volume, geo: Geo, g: nat, gd: Group)
    requires GroupFits(geo, g) && geo.blocks <= |v.dev| && DescMade(geo, gd, g)
    modifies v`dev
    ensures |v.dev| == |old(v.dev)|
    ensures forall b: nat | b < |v.dev| && !(g * BPG <= b < g * BPG + BPG) :: v.dev[b] == old(v.dev)[b]
    ensures GroupMade(geo, v.dev, g)
  {
    FitEnds(geo, g);
    var start, dataRel := g * BPG, geo.DataRel();
    var bb := MakeBlockMap(geo, g, dataRel, geo.GroupBlocks(g));
    var ib := MakeInodeMap(g);
    var last := dataRel + if g == 0 then 1 else 0;
    var r := 0;
    while r < last
      invariant 0 <= r <= last && |v.dev| == |old(v.dev)|
      invariant forall b: nat | b < |v.dev| ::
        v.dev[b] == if start <= b < start + r then ZERO_BLOCK else old(v.dev)[b]
    {
      v.dev := v.dev[start + r := ZERO_BLOCK];
      r := r + 1;
    }
    v.PutBits(gd.blockBitmap, bb);
    v.PutBits(gd.inodeBitmap, ib);
  }

  lemma FitPlace(geo: Geo, g: nat, r: nat)
    requires GroupFits(geo, g) && r < geo.DataRel()
    ensures (g * BPG + r) / BPG == g && (g * BPG + r) % BPG == r && g * BPG + r < geo.blocks
  {
    FitEnds(geo, g);
  }

  /** Group g keeps its bitmaps and table when only other blocks are written. */
  lemma GroupKept(geo: Geo, dev: seq<Block>, dev2: seq<Block>, g: nat)
    requires GroupFits(geo, g) && geo.blocks <= |dev| == |dev2| && GroupMade(geo, dev, g)
    requires forall b: nat | b < |dev| && b / BPG == g && geo.BbRel() <= b % BPG < geo.DataRel() :: dev2[b] == dev[b]
    ensures GroupMade(geo, dev2, g)
  {
    FitEnds(geo, g);
    FitPlace(geo, g, geo.BbRel());
    FitPlace(geo, g, geo.BbRel() + 1);
    forall r: nat | r < ITB ensures TableBlock(geo, dev2, g, r) == TableBlock(geo, dev, g, r) {
      FitPlace(geo, g, geo.BbRel() + 2 + r);
    }
  }

  ghost function FreeBlocksTerm(geo: Geo): nat -> nat {
    (g: nat) => if GroupFits(geo, g) then FreeBlocks(geo, g) else 0
  }

  ghost function FreeInodesTerm(): nat -> nat { (g: nat) => FreeInodes(g) }

  lemma FreshTotals(geo: Geo, dev: seq<Block>)
    requires geo.Valid()
    ensures Fresh(geo, dev).totB == Sum(geo.groups, FreeBlocksTerm(geo))
    ensures Fresh(geo, dev).totI == Sum(geo.groups, FreeInodesTerm())
  {
    AllFit(geo);
    var fs := Fresh(geo, dev);
    SumEqual(geo.groups, (k: nat) => if k < |fs.freeB| then fs.freeB[k] else 0, FreeBlocksTerm(geo));
    SumEqual(geo.groups, (k: nat) => if k < |fs.freeI| then fs.freeI[k] else 0, FreeInodesTerm());
  }

  /** The first n groups are laid out and described. */
  ghost predicate Made(geo: Geo, dev: seq<Block>, gdt: seq<Group>, n: nat)
    requires n <= |gdt| && geo.blocks <= |dev|
  {
    forall g: nat | g < n :: GroupFits(geo, g) && DescMade(geo, gdt[g], g) && GroupMade(geo, dev, g)
  }

  lemma MadeOneMore(geo: Geo, dev: seq<Block>, dev2: seq<Block>, gdt: seq<Group>, gd: Group)
    requires geo.blocks <= |dev| == |dev2| && Made(geo, dev, gdt, |gdt|)
    requires GroupFits(geo, |gdt|) && DescMade(geo, gd, |gdt|) && GroupMade(geo, dev2, |gdt|)
    requires forall b: nat | b < |dev| && !(|gdt| * BPG <= b < |gdt| * BPG + BPG) :: dev2[b] == dev[b]
    ensures Made(geo, dev2, gdt + [gd], |gdt| + 1)
  {
    forall g: nat | g < |gdt| ensures GroupMade(geo, dev2, g) {
      hide GroupMade, GroupFits, DescMade, Geo.BbRel, Geo.DataRel;
      GroupKept(geo, dev, dev2, g);
    }
    hide GroupMade, GroupFits, DescMade;
  }

  /** The loop that lays out the groups; it stops at one too small for its metadata. */
  method MakeGroups(v: Volume, geo: Geo) returns (ok: bool, gdt: seq<Group>, totalB: nat, totalI: nat)
    requires 1 <= geo.groups <= 65535 && geo.groups == (geo.blocks + BPG - 1) / BPG && geo.blocks <= |v.dev|
    modifies v`dev
    ensures |v.dev| == |old(v.dev)|
    ensures ok <==> geo.Valid()
    ensures ok ==> |gdt| == geo.groups && Made(geo, v.dev, gdt, |gdt|)
    ensures ok ==> totalB == Sum(geo.groups, FreeBlocksTerm(geo)) && totalI == Sum(geo.groups, FreeInodesTerm())
  {
    hide GroupMade, Made, BlockMap, InodeMap, Geo.IsMeta, Geo.BbLoc, Geo.IbLoc, Geo.ItLoc;
    gdt, totalB, totalI := [], 0, 0;
    var g := 0;
    assert Made(geo, v.dev, gdt, 0) by { MadeNone(geo, v.dev); }
    while g < geo.groups
      invariant 0 <= g <= geo.groups && |v.dev| == |old(v.dev)| && |gdt| == g && Made(geo, v.dev, gdt, g)
      invariant g > 0 ==> GroupFits(geo, g - 1)
      invariant totalB == Sum(g, FreeBlocksTerm(geo)) && totalI == Sum(g, FreeInodesTerm())
    {
      var groupBlocks := if geo.blocks - g * BPG > BPG then BPG else geo.blocks - g * BPG;
      if groupBlocks <= geo.DataRel() {
        NoFit(geo, g);
        return false, gdt, totalB, totalI;
      }
      var used := if g == 0 then 1 else 0;
      var freeBlocks := groupBlocks - geo.DataRel() - used;
      var freeInodes := IPG - if g == 0 then 10 else 0;
      var gd := Group(geo.BbLoc(g), geo.IbLoc(g), geo.ItLoc(g), freeBlocks, freeInodes, if g == 0 then 1 else 0);
      totalB, totalI := totalB + freeBlocks, totalI + freeInodes;
      ghost var was := v.dev;
      MakeGroup(v, geo, g, gd);
      MadeOneMore(geo, was, v.dev, gdt, gd);
      gdt := gdt + [gd];
      g := g + 1;
    }
    ok := true;
    LastFits(geo);
  }

  lemma MadeNone(geo: Geo, dev: seq<Block>)
    requires geo.blocks <= |dev|
    ensures Made(geo, dev, [], 0)
  {}

  lemma NoFit(geo: Geo, g: nat)
    requires geo.groups <= 65535 && g < geo.groups && g * BPG <= geo.blocks && geo.GroupBlocks(g) <= geo.DataRel()
    ensures !geo.Valid()
  {
    if geo.Valid() { GroupEnds(geo, g); LastGroup(geo, g); }
  }

  lemma LastFits(geo: Geo)
    requires 1 <= geo.groups <= 65535 && geo.groups == (geo.blocks + BPG - 1) / BPG && GroupFits(geo, geo.groups - 1)
    ensures geo.Valid()
  {}

  /** Blocks that hold superblock and descriptor copies. */
  predicate IsCopy(geo: Geo, b: nat) { b % BPG < geo.BbRel() }

  ghost predicate OnlyCopies(geo: Geo, dev: seq<Block>, dev2: seq<Block>) {
    |dev| == |dev2| && forall b: nat | b < |dev| && !IsCopy(geo, b) :: dev2[b] == dev[b]
  }

  /** One block of one copy: block k of the primary copy adds its descriptors, a backup changes nothing. */
  lemma DescsStep(geo: Geo, dev: seq<Block>, dev2: seq<Block>, gdt: seq<Group>, g: nat, k: nat)
    requires geo.Valid() && g < geo.groups == |gdt| && k < geo.GdtBlocks() && geo.blocks <= |dev|
    requires DescsOn(dev, gdt, if g > 0 then |gdt| else Least(k * PER_DESC, |gdt|))
    requires SameBut(dev, dev2, {g * BPG + 1 + k}) && dev2[g * BPG + 1 + k].descs == GdtBlock(gdt, k)
    ensures DescsOn(dev2, gdt, if g > 0 then |gdt| else Least((k + 1) * PER_DESC, |gdt|)) && dev2[0] == dev[0]
  {
    CopyPlace(geo, g, 1 + k);
    hide Geo.Valid, GdtBlock;
    if g == 0 {
      NextDescs(dev, dev2, gdt, k);
    } else {
      forall g2: nat | g2 < |gdt| ensures DescLoc(g2) < |dev2| && dev2[DescLoc(g2)] == dev[DescLoc(g2)] {
        assert DescLoc(g2) < |dev|;
      }
    }
  }

  /** Where group g has block k of the descriptor table. */
  function CopyOf(g: nat, k: nat): nat { g * BPG + 1 + k }

  /** Group g has a copy of the superblock and of the whole descriptor table. */
  ghost predicate CopyMade(geo: Geo, dev: seq<Block>, sb: Super, gdt: seq<Group>, g: nat) {
    && g * BPG < |dev| && dev[g * BPG].super == sb && TableMade(geo, dev, gdt, g, geo.GdtBlocks())
  }

  /** The first n descriptor blocks of group g are written. */
  ghost predicate TableMade(geo: Geo, dev: seq<Block>, gdt: seq<Group>, g: nat, n: nat) {
    forall k: nat | k < n :: k * PER_DESC < |gdt| && CopyOf(g, k) < |dev| && dev[CopyOf(g, k)].descs == GdtBlock(gdt, k)
  }

  /** Only copies in group g differ. */
  ghost predicate OnlyIn(geo: Geo, dev: seq<Block>, dev2: seq<Block>, g: nat) {
    |dev| == |dev2| && forall b: nat | b < |dev| && !(g * BPG <= b <= g * BPG + geo.GdtBlocks()) :: dev2[b] == dev[b]
  }

  /** The copies of other groups stay. */
  lemma CopyKept(geo: Geo, dev: seq<Block>, dev2: seq<Block>, sb: Super, gdt: seq<Group>, g: nat, g2: nat)
    requires CopyMade(geo, dev, sb, gdt, g) && OnlyIn(geo, dev, dev2, g2) && g < g2 && geo.GdtBlocks() < BPG
    ensures CopyMade(geo, dev2, sb, gdt, g)
  {
    hide GdtBlock, Geo.GdtBlocks;
    forall k: nat | k < geo.GdtBlocks()
      ensures k * PER_DESC < |gdt| && CopyOf(g, k) < |dev2| && dev2[CopyOf(g, k)].descs == GdtBlock(gdt, k)
    {
      assert CopyOf(g, k) < g2 * BPG;
    }
  }

  lemma TableMore(geo: Geo, dev: seq<Block>, dev2: seq<Block>, gdt: seq<Group>, g: nat, k: nat)
    requires TableMade(geo, dev, gdt, g, k) && k * PER_DESC < |gdt|
    requires SameBut(dev, dev2, {CopyOf(g, k)}) && CopyOf(g, k) < |dev2| && dev2[CopyOf(g, k)].descs == GdtBlock(gdt, k)
    ensures TableMade(geo, dev2, gdt, g, k + 1)
  {
    hide GdtBlock;
  }

  /** Descriptor copy of group g. */
  method WriteGdt(v: Volume, geo: Geo, gdt: seq<Group>, g: nat)
    requires geo.Valid() && g < geo.groups == |gdt| && geo.blocks <= |v.dev|
    requires g > 0 ==> DescsOn(v.dev, gdt, |gdt|)
    modifies v`dev
    ensures OnlyCopies(geo, old(v.dev), v.dev) && OnlyIn(geo, old(v.dev), v.dev, g)
    ensures v.dev[0].super == old(v.dev)[0].super && v.dev[g * BPG].super == old(v.dev)[g * BPG].super
    ensures DescsOn(v.dev, gdt, |gdt|) && TableMade(geo, v.dev, gdt, g, geo.GdtBlocks())
  {
    hide DescsOn, IsCopy, GdtBlock, TableMade;
    GroupEnds(geo, 0);
    GroupEnds(geo, g);
    var k := 0;
    assert DescsOn(v.dev, gdt, 0) by { NoDescs(v.dev, gdt); }
    assert TableMade(geo, v.dev, gdt, g, 0) by { NoTable(geo, v.dev, gdt, g); }
    while k < geo.GdtBlocks()
      invariant 0 <= k <= geo.GdtBlocks() && OnlyCopies(geo, old(v.dev), v.dev) && OnlyIn(geo, old(v.dev), v.dev, g)
      invariant v.dev[0].super == old(v.dev)[0].super && v.dev[g * BPG].super == old(v.dev)[g * BPG].super
      invariant DescsOn(v.dev, gdt, if g > 0 then |gdt| else Least(k * PER_DESC, |gdt|))
      invariant TableMade(geo, v.dev, gdt, g, k)
    {
      CopyPlace(geo, g, 1 + k);
      ghost var was := v.dev;
      v.PutDescs(CopyOf(g, k), GdtBlock(gdt, k));
      DescsStep(geo, was, v.dev, gdt, g, k);
      TableMore(geo, was, v.dev, gdt, g, k);
      k := k + 1;
    }
  }

  lemma NoTable(geo: Geo, dev: seq<Block>, gdt: seq<Group>, g: nat)
    ensures TableMade(geo, dev, gdt, g, 0)
  {}

  lemma CopyPlace(geo: Geo, g: nat, r: nat)
    requires geo.Valid() && g < geo.groups && r < geo.BbRel()
    ensures IsCopy(geo, g * BPG + r) && g * BPG + r < geo.blocks
    ensures g > 0 ==> g * BPG + r > geo.GdtBlocks()
    ensures forall g2: nat | g2 < geo.groups :: DescLoc(g2) <= geo.GdtBlocks()
  {
    GroupEnds(geo, g);
    MetaPlace(geo, g, r);
    forall g2: nat | g2 < geo.groups ensures DescLoc(g2) <= geo.GdtBlocks() { GroupEnds(geo, g2); }
  }

  /** Primary and backup copies. */
  method WriteCopies(v: Volume, geo: Geo, sb: Super, gdt: seq<Group>)
    requires geo.Valid() && |gdt| == geo.groups && geo.blocks <= |v.dev|
    modifies v`dev
    ensures OnlyCopies(geo, old(v.dev), v.dev) && |v.dev| > 0 && v.dev[0].super == sb && DescsOn(v.dev, gdt, |gdt|)
    ensures forall g: nat | g < geo.groups :: CopyMade(geo, v.dev, sb, gdt, g)
  {
    hide GdtBlock, DescsOn, CopyMade, TableMade, Geo.GdtBlocks, OnlyIn;
    GroupEnds(geo, 0);
    CopyPlace(geo, 0, 0);
    v.PutSuper(sb);
    var g := 0;
    while g < geo.groups
      invariant 0 <= g <= geo.groups && OnlyCopies(geo, old(v.dev), v.dev) && v.dev[0].super == sb
      invariant g > 0 ==> DescsOn(v.dev, gdt, |gdt|)
      invariant forall g2: nat | g2 < g :: CopyMade(geo, v.dev, sb, gdt, g2)
    {
      ghost var was := v.dev;
      CopyPlace(geo, g, 0);
      if g != 0 {
        v.dev := v.dev[g * BPG := v.dev[g * BPG].(super := sb)];
        SuperElsewhere(geo, was, v.dev, gdt, g);
      }
      ghost var now := v.dev;
      WriteGdt(v, geo, gdt, g);
      OneCopyMore(geo, was, now, v.dev, sb, gdt, g);
      g := g + 1;
    }
  }

  lemma SuperElsewhere(geo: Geo, dev: seq<Block>, dev2: seq<Block>, gdt: seq<Group>, g: nat)
    requires geo.Valid() && 0 < g < geo.groups == |gdt| && g * BPG < |dev| && SameBut(dev, dev2, {g * BPG})
    requires DescsOn(dev, gdt, |gdt|)
    ensures DescsOn(dev2, gdt, |gdt|) && dev2[0] == dev[0]
  {
    CopyPlace(geo, g, 0);
  }

  lemma OneCopyMore(geo: Geo, dev: seq<Block>, dev1: seq<Block>, dev2: seq<Block>, sb: Super, gdt: seq<Group>, g: nat)
    requires geo.Valid() && g < geo.groups == |gdt| && g * BPG < |dev| && (dev1 == dev || SameBut(dev, dev1, {g * BPG}))
    requires OnlyIn(geo, dev1, dev2, g) && dev2[g * BPG].super == sb && TableMade(geo, dev2, gdt, g, geo.GdtBlocks())
    requires forall g2: nat | g2 < g :: CopyMade(geo, dev, sb, gdt, g2)
    ensures forall g2: nat | g2 <= g :: CopyMade(geo, dev2, sb, gdt, g2)
  {
    hide TableMade, Geo.GdtBlocks;
    GroupEnds(geo, g);
    assert OnlyIn(geo, dev, dev2, g);
    hide OnlyIn;
    forall g2: nat | g2 < g ensures CopyMade(geo, dev2, sb, gdt, g2) { CopyKept(geo, dev, dev2, sb, gdt, g2, g); }
  }

  /** Group g has the superblock and the descriptors of group 0. */
  ghost predicate CopyOfFirst(geo: Geo, dev: seq<Block>, g: nat) {
    && g * BPG < |dev| && dev[g * BPG].super == dev[0].super
    && forall k: nat | k < geo.GdtBlocks() ::
         CopyOf(g, k) < |dev| && 1 + k < |dev| && dev[CopyOf(g, k)].descs == dev[1 + k].descs
  }

  ghost predicate Copied(geo: Geo, dev: seq<Block>) { forall g: nat | g < geo.groups :: CopyOfFirst(geo, dev, g) }

  lemma BothCopies(geo: Geo, dev: seq<Block>, sb: Super, gdt: seq<Group>, g: nat)
    requires CopyMade(geo, dev, sb, gdt, 0) && CopyMade(geo, dev, sb, gdt, g)
    ensures CopyOfFirst(geo, dev, g)
  {
    hide GdtBlock;
    assert dev[0 * BPG].super == sb;
    forall k: nat | k < geo.GdtBlocks()
      ensures CopyOf(g, k) < |dev| && 1 + k < |dev| && dev[CopyOf(g, k)].descs == dev[1 + k].descs
    {
      assert dev[CopyOf(0, k)].descs == GdtBlock(gdt, k) == dev[CopyOf(g, k)].descs;
      assert CopyOf(0, k) == 1 + k;
    }
  }

  /** Inode tables and data are no copies. */
  lemma CopiesStay(geo: Geo, dev: seq<Block>, dev2: seq<Block>, sb: Super, gdt: seq<Group>)
    requires geo.Valid() && geo.blocks <= |dev| && SameBut(dev, dev2, {geo.ItLoc(0), geo.DataRel()})
    requires forall g: nat | g < geo.groups :: CopyMade(geo, dev, sb, gdt, g)
    ensures Copied(geo, dev2)
  {
    hide CopyMade, CopyOfFirst;
    CopyOutside(geo, dev, dev2, sb, gdt, 0);
    forall g: nat | g < geo.groups ensures CopyOfFirst(geo, dev2, g) {
      CopyOutside(geo, dev, dev2, sb, gdt, g);
      BothCopies(geo, dev2, sb, gdt, g);
    }
  }

  lemma CopyOutside(geo: Geo, dev: seq<Block>, dev2: seq<Block>, sb: Super, gdt: seq<Group>, g: nat)
    requires geo.Valid() && g < geo.groups && geo.blocks <= |dev| && SameBut(dev, dev2, {geo.ItLoc(0), geo.DataRel()})
    requires CopyMade(geo, dev, sb, gdt, g)
    ensures CopyMade(geo, dev2, sb, gdt, g)
  {
    hide GdtBlock;
    GroupEnds(geo, g);
    MetaPlace(geo, g, 0);
    forall k: nat | k < geo.GdtBlocks()
      ensures k * PER_DESC < |gdt| && CopyOf(g, k) < |dev2| && dev2[CopyOf(g, k)].descs == GdtBlock(gdt, k)
    {
      MetaPlace(geo, g, 1 + k);
      assert CopyOf(g, k) == g * BPG + (1 + k);
    }
  }

  // ---- the root directory ----

  /** Table block 0 with the root inode in it. */
  function RootTable(b: nat): (t: seq<Inode>)
    ensures |t| == ITB
  {
    seq(ITB, (j: nat) => if j == 1 then RootInode(b) else ZERO_INODE)
  }

  lemma MadeAfterCopies(geo: Geo, dev: seq<Block>, dev2: seq<Block>, gdt: seq<Group>, n: nat)
    requires n <= |gdt| && geo.blocks <= |dev| && Made(geo, dev, gdt, n) && OnlyCopies(geo, dev, dev2)
    ensures Made(geo, dev2, gdt, n)
  {
    forall g: nat | g < n ensures GroupMade(geo, dev2, g) {
      hide GroupMade, GroupFits, DescMade, Geo.BbRel, Geo.DataRel;
      GroupKept(geo, dev, dev2, g);
    }
    hide GroupMade, GroupFits, DescMade;
  }

  /** dev2 is the finished device: dev with the root inode and its directory block written. */
  ghost predicate Rooted(geo: Geo, dev: seq<Block>, dev2: seq<Block>) {
    && SameBut(dev, dev2, {geo.ItLoc(0), geo.DataRel()})
    && geo.ItLoc(0) < |dev2| && dev2[geo.ItLoc(0)].inodes == RootTable(geo.DataRel())
    && geo.DataRel() < |dev2| && DotBlock(dev2[geo.DataRel()].recs, 2, 2)
  }

  lemma FreshInodeStored(geo: Geo, dev: seq<Block>, dev2: seq<Block>, gdt: seq<Group>, k: nat)
    requires geo.Valid() && |gdt| == geo.groups && geo.blocks <= |dev| && Made(geo, dev, gdt, |gdt|)
    requires Rooted(geo, dev, dev2) && k < geo.Inodes()
    ensures InoLoc(geo, k) < |dev2| && dev2[InoLoc(geo, k)].inodes[k % ITB] == Fresh(geo, dev2).inodes[k]
  {
    var g, r := k / IPG, k % IPG / ITB;
    assert GroupFits(geo, g) && GroupMade(geo, dev, g);
    hide Geo.DataRel, Geo.BbRel, Geo.GroupBlocks, Geo.IsMeta, Geo.Valid, RootInode, BlockMap, GroupFits, DescMade;
    Zones(geo, 0, 0, k);
    Zones(geo, 0, 0, 1);
    FreshRootPlace(geo);
    assert InoLoc(geo, 1) == geo.ItLoc(0);
    if InoLoc(geo, k) == geo.ItLoc(0) {
      if k % ITB == 1 { Apart(geo, k, 1); }
    } else {
      assert TableBlock(geo, dev, g, r) == dev2[InoLoc(geo, k)];
    }
  }

  lemma FreshRootPlace(geo: Geo)
    requires geo.Valid()
    ensures !geo.IsMeta(geo.DataRel()) && geo.DataRel() < geo.blocks && geo.Inodes() > 1
  {
    LastGroup(geo, 0);
  }

  lemma FreshStored(geo: Geo, dev: seq<Block>, dev2: seq<Block>, gdt: seq<Group>)
    requires geo.Valid() && |gdt| == geo.groups && geo.blocks <= |dev| && Made(geo, dev, gdt, |gdt|)
    requires Rooted(geo, dev, dev2)
    ensures Shape(Fresh(geo, dev2)) && Stored(dev2, Fresh(geo, dev2))
  {
    var fs := Fresh(geo, dev2);
    FreshInodes(geo, dev2);
    forall k: nat | k < |fs.inodes|
      ensures InoLoc(geo, k) < |dev2| && dev2[InoLoc(geo, k)].inodes[k % ITB] == fs.inodes[k]
    {
      FreshInodeStored(geo, dev, dev2, gdt, k);
    }
    hide Geo.DataRel, Geo.BbRel, Geo.GroupBlocks, Geo.IsMeta, Geo.Valid, RootInode, BlockMap, GroupFits, DescMade,
      InoLoc, Geo.BbLoc, Geo.IbLoc, Geo.GdtBlocks, RootTable;
    FreshRootPlace(geo);
    forall g: nat | g < geo.groups
      ensures geo.BbLoc(g) < |dev2| && dev2[geo.BbLoc(g)].bits == fs.bits[g]
      ensures geo.IbLoc(g) < |dev2| && dev2[geo.IbLoc(g)].bits == fs.ibits[g]
    {
      Zones(geo, g, g, 1);
      assert GroupMade(geo, dev, g);
      assert geo.ItLoc(0) == InoLoc(geo, 1) by { RootSlot(geo); }
    }
  }

  lemma RootSlot(geo: Geo)
    ensures InoLoc(geo, 1) == geo.ItLoc(0)
  {}

  lemma FreshCounters(geo: Geo, dev: seq<Block>, dev2: seq<Block>, gdt: seq<Group>)
    requires geo.Valid() && |gdt| == geo.groups && geo.blocks <= |dev| && Made(geo, dev, gdt, |gdt|)
    requires Rooted(geo, dev, dev2) && DescsOn(dev, gdt, |gdt|)
    requires dev[0].super == Super(0xEF53, geo.Inodes(), geo.blocks, Sum(geo.groups, FreeBlocksTerm(geo)),
                                   Sum(geo.groups, FreeInodesTerm()))
    ensures Shape(Fresh(geo, dev2)) && Counters(dev2, Fresh(geo, dev2))
  {
    hide Sum, Inodes;
    var fs := Fresh(geo, dev2);
    FreshInodes(geo, dev2);
    FreshTotals(geo, dev2);
    AllFit(geo);
    hide Geo.DataRel, Geo.BbRel, Geo.GroupBlocks, Geo.IsMeta, Geo.Valid, RootInode, BlockMap, GroupFits, GroupMade,
      InoLoc, Geo.BbLoc, Geo.IbLoc, Geo.GdtBlocks, RootTable, Geo.ItLoc, FreeBlocks, FreeInodes;
    FreshRootPlace(geo);
    forall g: nat | g < geo.groups
      ensures DescLoc(g) < |dev2| && DescIs(dev2[DescLoc(g)].descs[g % PER_DESC], fs, g)
    {
      Zones(geo, 0, g, 1);
      RootSlot(geo);
      DescMeta(geo, g);
      assert DescMade(geo, gdt[g], g);
      assert fs.freeB[g] == FreeBlocks(geo, g) && fs.freeI[g] == FreeInodes(g);
    }
    Zones(geo, 0, 0, 1);
    RootSlot(geo);
    DescMeta(geo, 0);
  }

  /** Superblock and descriptor copies, root inode, root directory. */
  method Populate(v: Volume, geo: Geo, gdt: seq<Group>, totalB: nat, totalI: nat)
    requires geo.Valid() && |gdt| == geo.groups && geo.blocks <= |v.dev| && Made(geo, v.dev, gdt, |gdt|)
    requires totalB == Sum(geo.groups, FreeBlocksTerm(geo)) && totalI == Sum(geo.groups, FreeInodesTerm())
    modifies v`dev
    ensures Rep(v.dev, Fresh(geo, v.dev)) && Inv(Fresh(geo, v.dev)) && Copied(geo, v.dev)
    ensures var fs := Fresh(geo, v.dev); |fs.inodes| > 1 && EmptyDir(fs.inodes[1], 0x1ED) && OnlyDots(fs, 2, 2)
  {
    hide EmptyDir, OnlyDots, CopyMade, Copied, Geo.DataRel, Geo.BbRel, Geo.GroupBlocks, Geo.IsMeta, Geo.Valid, RootInode, BlockMap, GroupFits, GroupMade,
      InoLoc, Geo.BbLoc, Geo.IbLoc, Geo.GdtBlocks, RootTable, Made, DescsOn, Geo.ItLoc, Rep, Fresh, DotBlock,
      OnlyCopies, InvX, Sum;
    ghost var dev0 := v.dev;
    var sb := Super(0xEF53, geo.Inodes(), geo.blocks, totalB, totalI);
    WriteCopies(v, geo, sb, gdt);
    ghost var dev1 := v.dev;
    MadeAfterCopies(geo, dev0, dev1, gdt, |gdt|);
    FreshRootPlace(geo);
    RootSlot(geo);
    Zones(geo, 0, 0, 1);
    CopiesLen(geo, dev0, dev1);
    v.PutInodes(geo.ItLoc(0), RootTable(geo.DataRel()));
    var recs := DotRecs(2, 2);
    v.dev := v.dev[geo.DataRel() := v.dev[geo.DataRel()].(recs := recs)];
    assert Rooted(geo, dev1, v.dev);
    CopiesStay(geo, dev1, v.dev, sb, gdt);
    FreshStored(geo, dev1, v.dev, gdt);
    FreshCounters(geo, dev1, v.dev, gdt);
    FreshIsConsistent(geo, v.dev);
    EmptyRoot(geo, v.dev);
    FreshGeo(geo, v.dev);
  }

  /** mkfs_ext2_core: exactly on the sizes it takes, the device becomes a consistent volume with an empty root. */
  method Mkfs(v: Volume, bytes: nat) returns (rc: int)
    requires bytes / BS <= |v.dev|
    modifies v`dev, v`fs
    ensures rc == 0 || rc == -1
    ensures rc == 0 <==> CanFormat(bytes)
    ensures rc == 0 ==> v.OnDisk() && Inv(v.fs) && v.fs == Fresh(GeoFor(bytes), v.dev)
    ensures rc == 0 ==> Copied(GeoFor(bytes), v.dev)
    ensures rc == 0 ==> |v.fs.inodes| > 1 && EmptyDir(v.fs.inodes[1], 0x1ED) && OnlyDots(v.fs, 2, 2)
  {
    hide OnlyDots, Copied, Geo.Valid, Made, Rep, Fresh, InvX, Sum;
    if bytes < 64 * 1024 { return -1; }
    if bytes / BS > 0xFFFF_FFFF {
      TooLarge(bytes);
      return -1;
    }
    var total := bytes / BS;
    var groups := (total + BPG - 1) % 0x1_0000_0000 / BPG;
    GroupsWrap(total);
    if groups == 0 || groups > 65535 {
      ManyGroups(bytes);
      return -1;
    }
    var geo := Geo(total, groups);
    var ok, gdt, totalB, totalI := MakeGroups(v, geo);
    if !ok { return -1; }
    Populate(v, geo, gdt, totalB, totalI);
    v.fs := Fresh(geo, v.dev);
    rc := 0;
  }

  lemma ManyGroups(bytes: nat)
    requires GeoFor(bytes).groups == 0 || GeoFor(bytes).groups > 65535
    ensures !CanFormat(bytes)
  {}

  lemma CopiesLen(geo: Geo, dev: seq<Block>, dev2: seq<Block>)
    requires OnlyCopies(geo, dev, dev2)
    ensures |dev| == |dev2|
  {}

  lemma FreshGeo(geo: Geo, dev: seq<Block>)
    requires geo.Valid() && Shape(Fresh(geo, dev)) && Counters(dev, Fresh(geo, dev)) && Stored(dev, Fresh(geo, dev))
    ensures Fresh(geo, dev).geo == geo && Rep(dev, Fresh(geo, dev))
  {}

  lemma TooLarge(bytes: nat)
    requires bytes / BS > 0xFFFF_FFFF
    ensures !CanFormat(bytes)
  {}

  /** The 32-bit sum in the group count wraps only on sizes that are refused either way. */
  lemma GroupsWrap(total: nat)
    requires total <= 0xFFFF_FFFF
    ensures var groups, full := (total + BPG - 1) % 0x1_0000_0000 / BPG, (total + BPG - 1) / BPG;
      groups == full || (groups == 0 && full > 65535)
  {}
}
