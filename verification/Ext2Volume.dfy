/** The device, the loaded superblock and descriptors, and how they represent the abstract state. */
module Ext2Volume {
  import opened Ext2Layout
  import opened Ext2State
  import opened Ext2Frames
  import opened Ext2Steps

  // ---- where things are ----

  /** Table block of the k-th inode. */
  function InoLoc(geo: Geo, k: nat): nat { geo.ItLoc(k / IPG) + k % IPG / ITB }

  ghost predicate SuperIs(s: Super, fs: Fs) {
    s == Super(0xEF53, fs.geo.Inodes(), fs.geo.blocks, fs.totB, fs.totI)
  }

  ghost predicate DescIs(d: Group, fs: Fs, g: nat)
    requires Shape(fs) && g < fs.geo.groups
  {
    && d.blockBitmap == fs.geo.BbLoc(g) && d.inodeBitmap == fs.geo.IbLoc(g) && d.inodeTable == fs.geo.ItLoc(g)
    && d.freeBlocks == fs.freeB[g] && d.freeInodes == fs.freeI[g] && d.usedDirs == fs.usedD[g]
  }

  /** The counters in memory are those of fs. */
  ghost predicate Loaded(sb: Super, gd: seq<Group>, fs: Fs) {
    && Shape(fs) && SuperIs(sb, fs) && |gd| == fs.geo.groups
    && forall g | 0 <= g < |gd| :: DescIs(gd[g], fs, g)
  }

  /** The counters on disk. */
  ghost predicate Counters(dev: seq<Block>, fs: Fs)
    requires Shape(fs)
  {
    && fs.geo.blocks <= |dev|
    && SuperIs(dev[0].super, fs)
    && forall g | 0 <= g < fs.geo.groups :: DescLoc(g) < |dev| && DescIs(dev[DescLoc(g)].descs[g % PER_DESC], fs, g)
  }

  function DescLoc(g: nat): nat { 1 + g / PER_DESC }

  /** Bitmaps, inode table and contents on disk. */
  ghost predicate Stored(dev: seq<Block>, fs: Fs)
    requires Shape(fs)
  {
    && |dev| == |fs.blk|
    && (forall g | 0 <= g < fs.geo.groups ::
          && fs.geo.BbLoc(g) < |dev| && dev[fs.geo.BbLoc(g)].bits == fs.bits[g]
          && fs.geo.IbLoc(g) < |dev| && dev[fs.geo.IbLoc(g)].bits == fs.ibits[g])
    && (forall k: nat | k < |fs.inodes| ::
          InoLoc(fs.geo, k) < |dev| && dev[InoLoc(fs.geo, k)].inodes[k % ITB] == fs.inodes[k])
    && (forall b: nat | b < |dev| && !fs.geo.IsMeta(b) :: dev[b] == fs.blk[b])
  }

  ghost predicate Rep(dev: seq<Block>, fs: Fs) { Shape(fs) && Counters(dev, fs) && Stored(dev, fs) }

  /** The counters in memory say nothing about contents. */
  lemma LoadedOver(sb: Super, gd: seq<Group>, fs: Fs)
    requires Loaded(sb, gd, fs)
    ensures forall blk2: seq<Block> | |blk2| == |fs.blk| :: Loaded(sb, gd, fs.(blk := blk2))
  {}

  lemma DeviceLen(dev: seq<Block>, fs: Fs)
    requires Rep(dev, fs)
    ensures |dev| == |fs.blk|
  {}

  // ---- layout arithmetic ----

  lemma GroupEnds(geo: Geo, g: nat)
    requires geo.Valid() && g < geo.groups
    ensures g * BPG + geo.DataRel() <= geo.blocks && geo.DataRel() <= 547
    ensures geo.GroupBlocks(g) <= BPG && geo.DataRel() <= geo.GroupBlocks(g) && g * BPG + geo.GroupBlocks(g) <= geo.blocks
    ensures geo.GdtBlocks() <= 512 && DescLoc(g) <= geo.GdtBlocks()
  {}

  lemma MetaPlace(geo: Geo, g: nat, r: nat)
    requires geo.Valid() && r < geo.DataRel()
    ensures geo.IsMeta(g * BPG + r) && (g * BPG + r) / BPG == g && (g * BPG + r) % BPG == r
  {
    GroupEnds(geo, 0);
  }

  /** An inode's slot in its table block, from its number or from its place in the group. */
  lemma SlotInBlock(k: nat)
    ensures k % IPG % ITB == k % ITB
  {
    var q, r := k / IPG, k % IPG;
    assert k == ITB * (32 * q) + r;
    SameRest(32 * q, r);
  }

  lemma SameRest(q: nat, r: nat)
    ensures (ITB * q + r) % ITB == r % ITB
  {}

  lemma InoPlace(geo: Geo, k: nat)
    requires geo.Valid() && k < geo.Inodes()
    ensures k / IPG < geo.groups
    ensures InoLoc(geo, k) == k / IPG * BPG + (geo.BbRel() + 2 + k % IPG / ITB)
    ensures geo.BbRel() + 2 + k % IPG / ITB < geo.DataRel()
  {}

  /** Everything outside the data area, kept apart: no bitmap, table or descriptor block is another's. */
  lemma Apart(geo: Geo, k: nat, k2: nat)
    requires geo.Valid() && k < geo.Inodes() && k2 < geo.Inodes()
    requires InoLoc(geo, k) == InoLoc(geo, k2) && k % ITB == k2 % ITB
    ensures k == k2
  {
    hide InoLoc, Geo.BbRel, Geo.DataRel, Geo.IsMeta, Geo.Valid, Geo.GdtBlocks;
    InoPlace(geo, k);
    InoPlace(geo, k2);
    MetaPlace(geo, k / IPG, geo.BbRel() + 2 + k % IPG / ITB);
    MetaPlace(geo, k2 / IPG, geo.BbRel() + 2 + k2 % IPG / ITB);
    TableSlot(k);
    TableSlot(k2);
  }

  lemma TableSlot(k: nat)
    ensures k == k / IPG * IPG + k % IPG / ITB * ITB + k % ITB
  {
    assert k % IPG % ITB == k % ITB;
  }

  /** Which metadata block a place is: 0 super and descriptors, 1 block bitmap, 2 inode bitmap, 3 inode table. */
  lemma Zones(geo: Geo, g: nat, g2: nat, k: nat)
    requires geo.Valid() && g < geo.groups && g2 < geo.groups && k < geo.Inodes()
    ensures geo.BbLoc(g) == geo.BbLoc(g2) ==> g == g2
    ensures geo.IbLoc(g) == geo.IbLoc(g2) ==> g == g2
    ensures geo.BbLoc(g) != geo.IbLoc(g2) && geo.BbLoc(g) != InoLoc(geo, k) && geo.IbLoc(g) != InoLoc(geo, k)
    ensures DescLoc(g2) < geo.BbLoc(g) && DescLoc(g2) < geo.IbLoc(g) && DescLoc(g2) < InoLoc(geo, k)
    ensures geo.IsMeta(geo.BbLoc(g)) && geo.IsMeta(geo.IbLoc(g)) && geo.IsMeta(InoLoc(geo, k))
    ensures geo.BbLoc(g) < geo.blocks && geo.IbLoc(g) < geo.blocks && InoLoc(geo, k) < geo.blocks
  {
    GroupEnds(geo, g);
    GroupEnds(geo, g2);
    InoPlace(geo, k);
    GroupEnds(geo, k / IPG);
    MetaPlace(geo, g, geo.BbRel());
    MetaPlace(geo, g, geo.BbRel() + 1);
    MetaPlace(geo, g2, geo.BbRel());
    MetaPlace(geo, g2, geo.BbRel() + 1);
    MetaPlace(geo, k / IPG, geo.BbRel() + 2 + k % IPG / ITB);
  }

  // ---- what each kind of block write does to the representation ----

  ghost function Overlay(blk: seq<Block>, dev2: seq<Block>, w: set<nat>): (r: seq<Block>)
    requires |blk| == |dev2|
    ensures SameBut(blk, r, w)
    ensures forall b | b in w && b < |blk| :: r[b] == dev2[b]
  {
    seq(|blk|, (b: nat) requires b < |dev2| => if b in w then dev2[b] else blk[b])
  }

  lemma DataWritten(dev: seq<Block>, fs: Fs, dev2: seq<Block>, w: set<nat>)
    requires Rep(dev, fs) && SameBut(dev, dev2, w) && forall b | b in w :: !fs.geo.IsMeta(b)
    ensures Rep(dev2, fs.(blk := Overlay(fs.blk, dev2, w)))
  {
    hide Geo.IsMeta, Geo.Valid, Geo.BbLoc, Geo.IbLoc, InoLoc, Geo.GdtBlocks, Geo.DataRel;
    var geo := fs.geo;
    FirstPlaces(fs);
    forall g | 0 <= g < geo.groups ensures geo.BbLoc(g) !in w && geo.IbLoc(g) !in w && DescLoc(g) !in w && 0 !in w {
      Zones(geo, g, g, 0);
      DescMeta(geo, g);
    }
    forall k: nat | k < |fs.inodes| ensures InoLoc(geo, k) !in w {
      Zones(geo, 0, 0, k);
    }
    assert 0 !in w by { DescMeta(geo, 0); }
  }

  lemma DescMeta(geo: Geo, g: nat)
    requires geo.Valid() && g < geo.groups
    ensures geo.IsMeta(DescLoc(g)) && geo.IsMeta(0) && DescLoc(g) < geo.blocks
  {
    GroupEnds(geo, 0);
    GroupEnds(geo, g);
  }

  /** Group 0 and inode 1 exist. */
  lemma FirstPlaces(fs: Fs)
    requires Shape(fs)
    ensures 0 < fs.geo.groups && 1024 <= |fs.inodes|
  {}

  lemma BitmapWritten(dev: seq<Block>, fs: Fs, g: nat, dev2: seq<Block>)
    requires Rep(dev, fs) && g < fs.geo.groups && SameBut(dev, dev2, {fs.geo.BbLoc(g)})
    ensures var fs2 := fs.(bits := fs.bits[g := dev2[fs.geo.BbLoc(g)].bits]);
      Shape(fs2) && Stored(dev2, fs2) && Counters(dev2, fs)
  {
    hide Geo.IsMeta, Geo.Valid, Geo.BbLoc, Geo.IbLoc, InoLoc, Geo.GdtBlocks, Geo.DataRel;
    FirstPlaces(fs);
    forall g2 | 0 <= g2 < fs.geo.groups
      ensures fs.geo.BbLoc(g) == fs.geo.BbLoc(g2) ==> g == g2
      ensures fs.geo.BbLoc(g) != fs.geo.IbLoc(g2) && fs.geo.BbLoc(g) != DescLoc(g2)
    {
      Zones(fs.geo, g, g2, 0);
    }
    forall k: nat | k < |fs.inodes| ensures fs.geo.BbLoc(g) != InoLoc(fs.geo, k) {
      Zones(fs.geo, g, g, k);
    }
    Zones(fs.geo, g, 0, 0);
  }

  lemma IBitmapWritten(dev: seq<Block>, fs: Fs, g: nat, dev2: seq<Block>)
    requires Rep(dev, fs) && g < fs.geo.groups && SameBut(dev, dev2, {fs.geo.IbLoc(g)})
    ensures var fs2 := fs.(ibits := fs.ibits[g := dev2[fs.geo.IbLoc(g)].bits]);
      Shape(fs2) && Stored(dev2, fs2) && Counters(dev2, fs)
  {
    hide Geo.IsMeta, Geo.Valid, Geo.BbLoc, Geo.IbLoc, InoLoc, Geo.GdtBlocks, Geo.DataRel;
    FirstPlaces(fs);
    forall g2 | 0 <= g2 < fs.geo.groups
      ensures fs.geo.IbLoc(g) == fs.geo.IbLoc(g2) ==> g == g2
      ensures fs.geo.IbLoc(g) != fs.geo.BbLoc(g2) && fs.geo.IbLoc(g) != DescLoc(g2)
    {
      Zones(fs.geo, g, g2, 0);
      Zones(fs.geo, g2, g, 0);
    }
    forall k: nat | k < |fs.inodes| ensures fs.geo.IbLoc(g) != InoLoc(fs.geo, k) {
      Zones(fs.geo, g, g, k);
    }
    Zones(fs.geo, g, 0, 0);
  }

  lemma InodeWritten(dev: seq<Block>, fs: Fs, k: nat, i: Inode, dev2: seq<Block>)
    requires Rep(dev, fs) && k < |fs.inodes| && SameBut(dev, dev2, {InoLoc(fs.geo, k)})
    requires InoLoc(fs.geo, k) < |dev| &&
      dev2[InoLoc(fs.geo, k)].inodes == dev[InoLoc(fs.geo, k)].inodes[k % ITB := i]
    ensures Rep(dev2, fs.(inodes := fs.inodes[k := i]))
  {
    hide Geo.IsMeta, Geo.Valid, Geo.BbLoc, Geo.IbLoc, InoLoc, Geo.GdtBlocks, Geo.DataRel;
    var x := InoLoc(fs.geo, k);
    FirstPlaces(fs);
    forall g | 0 <= g < fs.geo.groups ensures x != fs.geo.BbLoc(g) && x != fs.geo.IbLoc(g) && x != DescLoc(g) {
      Zones(fs.geo, g, g, k);
    }
    forall k2: nat | k2 < |fs.inodes| ensures InoLoc(fs.geo, k2) == x && k2 % ITB == k % ITB ==> k2 == k {
      if InoLoc(fs.geo, k2) == x && k2 % ITB == k % ITB { Apart(fs.geo, k, k2); }
    }
    Zones(fs.geo, 0, 0, k);
  }

  /** Superblock and descriptors rewritten from memory; nothing else touched. */
  lemma CountersWritten(dev: seq<Block>, fs: Fs, sb: Super, gd: seq<Group>, fs2: Fs, dev2: seq<Block>)
    requires Shape(fs) && Stored(dev, fs) && Loaded(sb, gd, fs2)
    requires fs2 == fs.(freeB := fs2.freeB, totB := fs2.totB, freeI := fs2.freeI, totI := fs2.totI, usedD := fs2.usedD)
    requires |dev2| == |dev| && forall b: nat | fs.geo.GdtBlocks() < b < |dev| :: dev2[b] == dev[b]
    requires dev2[0].super == sb
    requires forall g | 0 <= g < |gd| :: DescLoc(g) < |dev| && dev2[DescLoc(g)].descs[g % PER_DESC] == gd[g]
    ensures Rep(dev2, fs2)
  {
    hide Geo.IsMeta, Geo.Valid, Geo.BbLoc, Geo.IbLoc, InoLoc, Geo.GdtBlocks, Geo.DataRel, SuperIs, DescIs;
    var geo := fs.geo;
    FirstPlaces(fs);
    forall g | 0 <= g < geo.groups ensures geo.BbLoc(g) > geo.GdtBlocks() && geo.IbLoc(g) > geo.GdtBlocks() {
      AboveDescs(geo, g, 0);
    }
    forall k: nat | k < |fs.inodes| ensures InoLoc(geo, k) > geo.GdtBlocks() {
      AboveDescs(geo, 0, k);
    }
    forall b: nat | b <= geo.GdtBlocks() ensures geo.IsMeta(b) { LowMeta(geo, b); }
  }

  lemma AboveDescs(geo: Geo, g: nat, k: nat)
    requires geo.Valid() && g < geo.groups && k < geo.Inodes()
    ensures geo.BbLoc(g) > geo.GdtBlocks() && geo.IbLoc(g) > geo.GdtBlocks() && InoLoc(geo, k) > geo.GdtBlocks()
  {
    InoPlace(geo, k);
  }

  lemma LowMeta(geo: Geo, b: nat)
    requires geo.Valid() && b <= geo.GdtBlocks()
    ensures geo.IsMeta(b)
  {
    GroupEnds(geo, 0);
  }

  // ---- descriptors, 128 a block ----

  /** The first n descriptors are on dev. */
  ghost predicate DescsOn(dev: seq<Block>, gdt: seq<Group>, n: nat)
    requires n <= |gdt|
  {
    forall g: nat | g < n :: DescLoc(g) < |dev| && dev[DescLoc(g)].descs[g % PER_DESC] == gdt[g]
  }

  /** Descriptor block k as it is written: zeros after the last descriptor. */
  function GdtBlock(gdt: seq<Group>, k: nat): (descs: seq<Group>)
    requires k * PER_DESC < |gdt|
    ensures |descs| == PER_DESC
  {
    var first := k * PER_DESC;
    var count := if |gdt| - first > PER_DESC then PER_DESC else |gdt| - first;
    gdt[first..first + count] + seq(PER_DESC - count, _ => Group(0, 0, 0, 0, 0, 0))
  }

  function Least(a: nat, b: nat): nat { if a < b then a else b }

  /** Writing descriptor block k adds its descriptors. */
  lemma NextDescs(dev: seq<Block>, dev2: seq<Block>, gdt: seq<Group>, k: nat)
    requires k * PER_DESC < |gdt| && DescsOn(dev, gdt, k * PER_DESC) && 1 + k < |dev|
    requires SameBut(dev, dev2, {1 + k}) && dev2[1 + k].descs == GdtBlock(gdt, k)
    ensures DescsOn(dev2, gdt, Least((k + 1) * PER_DESC, |gdt|))
  {
    forall g: nat | g < Least((k + 1) * PER_DESC, |gdt|)
      ensures DescLoc(g) < |dev2| && dev2[DescLoc(g)].descs[g % PER_DESC] == gdt[g]
    {
      if g < k * PER_DESC {
        assert DescLoc(g) < |dev|;
      } else {
        DescPlace(g, k);
      }
    }
  }

  lemma DescPlace(g: nat, k: nat)
    requires k * PER_DESC <= g < (k + 1) * PER_DESC
    ensures DescLoc(g) == 1 + k && g % PER_DESC == g - k * PER_DESC
  {}

  lemma NoDescs(dev: seq<Block>, gdt: seq<Group>)
    ensures DescsOn(dev, gdt, 0)
  {}
}
