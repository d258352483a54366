/** The mounted volume: device, loaded metadata, and the primitive operations on them. */
module Ext2Engine {
  import opened Ext2Layout
  import opened Ext2State
  import opened Ext2Frames
  import opened Ext2Steps
  import opened Ext2DirSteps
  import opened Ext2Volume
  import opened Ext2Bitmaps

  const MAX_GROUPS: nat := 1024

  /** Blocks that len bytes from byte abs on lie in. */
  ghost function Touched(abs: nat, len: nat): set<nat> {
    set b: nat | b < (abs + len + BS - 1) / BS && abs < b * BS + BS && b * BS < abs + len
  }

  function PatchedBlock(x: Block, b: nat, abs: nat, src: seq<Byte>): Block {
    x.(data := seq(BS, (o: nat) requires o < BS =>
         if abs <= b * BS + o < abs + |src| then src[b * BS + o - abs] else x.data[o]))
  }

  /** Where the sum of the source wraps around at 2 to the 32, loading fails with either result. */
  function Groups(sb: Super): nat { (sb.blocksCount + BPG - 1) / BPG }

  /** The superblock can be read, is one of EXT2 and counts from 1 to 1024 groups, whose descriptors can be read. */
  ghost predicate Loads(dev: seq<Block>) {
    && 0 < |dev| && dev[0].super.magic == 0xEF53 && 0 < Groups(dev[0].super) <= MAX_GROUPS
    && (Groups(dev[0].super) + PER_DESC - 1) / PER_DESC < |dev|
  }

  class Volume {
    var dev: seq<Block>
    var sb: Super
    var gd: seq<Group>
    ghost var fs: Fs

    /** The device represents fs. */
    ghost predicate OnDisk()
      reads this
    {
      Rep(dev, fs)
    }

    /** ... and the loaded counters are those on disk. */
    ghost predicate Synced()
      reads this
    {
      Rep(dev, fs) && Loaded(sb, gd, fs)
    }

    /** A device that represents a state can be loaded up to 1024 groups. */
    lemma StateLoads()
      requires OnDisk()
      ensures 0 < |dev| && Groups(dev[0].super) == fs.geo.groups
      ensures Loads(dev) <==> fs.geo.groups <= MAX_GROUPS
    {
      hide Stored, DescIs;
      GroupEnds(fs.geo, 0);
      assert fs.geo.groups - 1 < fs.geo.groups;
      assert DescLoc(fs.geo.groups - 1) < |dev|;
    }

    /** ext2_load_meta: it fails without a readable superblock of that magic number, and without blocks, or beyond
        1024 groups, or where a descriptor block cannot be read. */
    method LoadMeta() returns (ok: bool)
      modifies `sb, `gd
      ensures ok <==> Loads(dev)
      ensures ok ==> sb == dev[0].super && |gd| == Groups(sb) && DescsOn(dev, gd, |gd|)
      ensures OnDisk() ==> (ok <==> fs.geo.groups <= MAX_GROUPS) && (ok ==> Synced())
    {
      hide Rep, Loaded, DescsOn, Shape;
      if OnDisk() { StateLoads(); }
      if |dev| == 0 { return false; }
      sb := dev[0].super;
      if sb.magic != 0xEF53 { return false; }
      var groupCount := Groups(sb);
      if groupCount == 0 || groupCount > MAX_GROUPS { return false; }
      var gdtBlocks := (groupCount + PER_DESC - 1) / PER_DESC;
      gd := [];
      var k := 0;
      NoDescs(dev, gd);
      while k < gdtBlocks
        invariant 0 <= k <= gdtBlocks && k < |dev| && sb == dev[0].super
        invariant |gd| == Least(k * PER_DESC, groupCount) && DescsOn(dev, gd, |gd|)
      {
        if 1 + k >= |dev| { return false; }
        var first := k * PER_DESC;
        var count := groupCount - first;
        if count > PER_DESC { count := PER_DESC; }
        MoreDescs(dev, gd, k, count);
        gd := gd + dev[1 + k].descs[..count];
        k := k + 1;
      }
      if OnDisk() { ReadBack(dev, fs, gd); }
      return true;
    }

    /** ext2_store_meta */
    method StoreMeta()
      requires 0 < |gd| && (|gd| + PER_DESC - 1) / PER_DESC < |dev|
      modifies `dev
      ensures |dev| == |old(dev)| && dev[0].super == sb
      ensures forall g | 0 <= g < |gd| :: DescLoc(g) < |dev| && dev[DescLoc(g)].descs[g % PER_DESC] == gd[g]
      ensures forall b | (|gd| + PER_DESC - 1) / PER_DESC < b < |dev| :: dev[b] == old(dev)[b]
    {
      hide GdtBlock;
      var gdtBlocks := (|gd| + PER_DESC - 1) / PER_DESC;
      PutSuper(sb);
      var k := 0;
      NoDescs(dev, gd);
      while k < gdtBlocks
        invariant 0 <= k <= gdtBlocks && |dev| == |old(dev)| && dev[0].super == sb
        invariant DescsOn(dev, gd, Least(k * PER_DESC, |gd|))
        invariant forall b | gdtBlocks < b < |dev| :: dev[b] == old(dev)[b]
      {
        hide DescsOn;
        ghost var was := dev;
        PutDescs(1 + k, GdtBlock(gd, k));
        NextDescs(was, dev, gd, k);
        k := k + 1;
      }
    }

    // ---- block writes: one reading is fixed, the others are whatever they come out as ----

    method PutSuper(s: Super)
      requires 0 < |dev|
      modifies `dev
      ensures SameBut(old(dev), dev, {0}) && dev[0].super == s
    {
      dev := dev[0 := dev[0].(super := s)];
    }

    method PutDescs(b: nat, descs: seq<Group>)
      requires b < |dev| && |descs| == PER_DESC
      modifies `dev
      ensures SameBut(old(dev), dev, {b}) && dev[b].descs == descs
    {
      dev := dev[b := dev[b].(descs := descs)];
    }

    method PutBits(b: nat, bits: seq<bool>)
      requires b < |dev| && |bits| == BPG
      modifies `dev
      ensures SameBut(old(dev), dev, {b}) && dev[b].bits == bits
    {
      dev := dev[b := dev[b].(bits := bits)];
    }

    method PutInodes(b: nat, inodes: seq<Inode>)
      requires b < |dev| && |inodes| == ITB
      modifies `dev
      ensures SameBut(old(dev), dev, {b}) && dev[b].inodes == inodes
    {
      dev := dev[b := dev[b].(inodes := inodes)];
    }

    /** Whole-block write of pointers into the data area. */
    method PutPtrs(b: nat, ptrs: seq<nat>)
      requires OnDisk() && b < |dev| && !fs.geo.IsMeta(b) && |ptrs| == PTRS
      modifies `dev, `fs
      ensures OnDisk() && fs == old(fs).(blk := fs.blk)
      ensures SameBut(old(fs).blk, fs.blk, {b}) && fs.blk[b].ptrs == ptrs
    {
      ghost var was := dev;
      dev := dev[b := dev[b].(ptrs := ptrs)];
      DataWritten(was, fs, dev, {b});
      fs := fs.(blk := Overlay(fs.blk, dev, {b}));
    }

    /** Whole-block write of directory records into the data area. */
    method PutRecs(b: nat, recs: seq<Rec>)
      requires OnDisk() && b < |dev| && !fs.geo.IsMeta(b) && |recs| == BS
      modifies `dev, `fs
      ensures OnDisk() && fs == old(fs).(blk := fs.blk)
      ensures SameBut(old(fs).blk, fs.blk, {b}) && fs.blk[b].recs == recs
    {
      ghost var was := dev;
      dev := dev[b := dev[b].(recs := recs)];
      DataWritten(was, fs, dev, {b});
      fs := fs.(blk := Overlay(fs.blk, dev, {b}));
    }

    /** Byte-addressed write into the data area; it may start and end inside blocks. */
    method PutBytes(abs: nat, src: seq<Byte>)
      requires OnDisk() && forall b | b in Touched(abs, |src|) :: b < |dev| && !fs.geo.IsMeta(b)
      modifies `dev, `fs
      ensures OnDisk() && fs == old(fs).(blk := fs.blk)
      ensures SameBut(old(fs).blk, fs.blk, Touched(abs, |src|))
      ensures forall b, o | 0 <= b < |fs.blk| && 0 <= o < BS ::
        fs.blk[b].data[o] ==
          if abs <= b * BS + o < abs + |src| then src[b * BS + o - abs] else old(fs).blk[b].data[o]
    {
      ghost var was, fs0 := dev, fs;
      dev := seq(|dev|, (b: nat) requires b < |dev| reads this => PatchedBlock(dev[b], b, abs, src));
      ghost var w := Touched(abs, |src|);
      forall b | 0 <= b < |dev| && b !in w ensures dev[b] == was[b] {
        assert abs > b * BS + BS - 1 || b * BS >= abs + |src|;
        assert PatchedBlock(was[b], b, abs, src).data == was[b].data;
      }
      DataWritten(was, fs, dev, w);
      fs := fs.(blk := Overlay(fs.blk, dev, w));
    }

    // ---- inodes ----

    /** Where the computed position lies. */
    lemma InodeHome(ino: nat)
      requires Synced()
      ensures |gd| == fs.geo.groups && sb.inodesCount == fs.geo.Inodes() == |fs.inodes|
      ensures 1 <= ino <= fs.geo.Inodes() ==>
        var group, local := (ino - 1) / IPG, (ino - 1) % IPG;
        && group < |gd| && gd[group].inodeTable + local / ITB == InoLoc(fs.geo, ino - 1) < |dev|
        && local % ITB == (ino - 1) % ITB && dev[InoLoc(fs.geo, ino - 1)].inodes[local % ITB] == fs.inodes[ino - 1]
    {
      if 1 <= ino <= fs.geo.Inodes() {
        InoPlace(fs.geo, ino - 1);
        SlotInBlock(ino - 1);
      }
      hide Geo.Valid, Geo.DataRel, Geo.BbRel, Geo.GdtBlocks;
    }

    /** ext2_read_inode_at */
    method ReadInode(ino: nat) returns (ok: bool, i: Inode)
      requires Synced()
      ensures ok <==> 1 <= ino <= fs.geo.Inodes()
      ensures ok ==> i == fs.inodes[ino - 1]
    {
      hide Rep, Loaded, InoLoc;
      InodeHome(ino);
      i := ZERO_INODE;
      if ino == 0 || ino > sb.inodesCount { return false, i; }
      var group, local := (ino - 1) / IPG, (ino - 1) % IPG;
      if group >= |gd| { return false, i; }
      i := dev[gd[group].inodeTable + local / ITB].inodes[local % ITB];
      return true, i;
    }

    /** ext2_write_inode_at */
    method WriteInode(ino: nat, i: Inode) returns (ok: bool)
      requires Synced()
      modifies `dev, `fs
      ensures Synced()
      ensures ok <==> 1 <= ino <= old(fs).geo.Inodes()
      ensures ok ==> fs == old(fs).(inodes := old(fs).inodes[ino - 1 := i])
      ensures !ok ==> fs == old(fs)
    {
      hide Rep, Loaded, InoLoc;
      InodeHome(ino);
      if ino == 0 || ino > sb.inodesCount { return false; }
      var group, local := (ino - 1) / IPG, (ino - 1) % IPG;
      if group >= |gd| { return false; }
      ghost var was := dev;
      var b := gd[group].inodeTable + local / ITB;
      PutInodes(b, dev[b].inodes[local % ITB := i]);
      InodeWritten(was, fs, ino - 1, i, dev);
      LoadedOtherInode(sb, gd, fs, ino - 1, i);
      fs := fs.(inodes := fs.inodes[ino - 1 := i]);
      return true;
    }
  }

  lemma LoadedOtherInode(sb: Super, gd: seq<Group>, fs: Fs, k: nat, i: Inode)
    requires Loaded(sb, gd, fs) && k < |fs.inodes|
    ensures Loaded(sb, gd, fs.(inodes := fs.inodes[k := i]))
  {}

  /** Reading descriptor block k adds its descriptors. */
  lemma MoreDescs(dev: seq<Block>, gd: seq<Group>, k: nat, count: nat)
    requires |gd| == k * PER_DESC && count <= PER_DESC && 1 + k < |dev| && DescsOn(dev, gd, |gd|)
    ensures DescsOn(dev, gd + dev[1 + k].descs[..count], |gd| + count)
  {
    forall g: nat | |gd| <= g < |gd| + count ensures DescLoc(g) == 1 + k && g % PER_DESC == g - |gd| { DescPlace(g, k); }
  }

  /** What is read back is what the state says. */
  lemma ReadBack(dev: seq<Block>, fs: Fs, gd: seq<Group>)
    requires Rep(dev, fs) && |gd| == fs.geo.groups && DescsOn(dev, gd, |gd|)
    ensures 0 < |dev| && Loaded(dev[0].super, gd, fs)
  {
    hide Stored;
    forall g | 0 <= g < |gd| ensures DescIs(gd[g], fs, g) { assert DescLoc(g) < |dev|; }
  }
}
