/** What it means for an image to be clean: the conditions ext2_fsck_phase1 is after, over any device. */
module FsckSpec {
  import opened Bytes
  import opened Sums
  import opened Ext2Layout
  import opened Ext2State
  import opened FsckBlocks
  import opened FsckDirectory

  /** A device with the block and inode counts its superblock claims. */
  datatype Img = Img(d: seq<Block>, blocks: nat, inodes: nat) {
    function Groups(): nat { (blocks + BPG - 1) / BPG }
    function GdBlocks(): nat { (Groups() + PER_DESC - 1) / PER_DESC }
    function NBlk(g: nat): nat {
      if g * BPG >= blocks then 0 else if blocks - g * BPG > BPG then BPG else blocks - g * BPG
    }
    function NIno(g: nat): nat {
      if g * IPG >= inodes then 0 else if inodes - g * IPG > IPG then IPG else inodes - g * IPG
    }

    /** Superblock and descriptors can be read and make sense together. */
    predicate HasGeometry() {
      && 0 < blocks <= |d| && 0 < inodes
      && Groups() <= 65535 && (inodes + IPG - 1) % WORD / IPG <= Groups()
      && BS + Groups() * 32 <= |d| * BS
    }

    function Gd(g: nat): Group
      requires HasGeometry() && g < Groups()
    {
      d[1 + g / PER_DESC].descs[g % PER_DESC]
    }

    /** The inode bitmap of group g is on the device, if the group has inodes. */
    predicate HasInodeMap(g: nat)
      requires HasGeometry() && g < Groups()
    {
      NIno(g) > 0 ==> Gd(g).inodeBitmap < |d|
    }

    /** The block bitmap of group g is in the group. */
    predicate HasBlockMap(g: nat)
      requires HasGeometry() && g < Groups()
    {
      g * BPG <= Gd(g).blockBitmap < g * BPG + NBlk(g)
    }

    /** All bitmaps can be loaded. */
    ghost predicate Readable() {
      && HasGeometry()
      && (forall g: nat | g < Groups() :: HasInodeMap(g))
      && (forall g: nat | g < Groups() :: HasBlockMap(g))
    }

    ghost predicate BAlloc(b: nat)
      requires HasGeometry()
    {
      b < blocks && Gd(b / BPG).blockBitmap < |d| && d[Gd(b / BPG).blockBitmap].bits[b % BPG]
    }

    ghost predicate IAlloc(k: nat)
      requires HasGeometry()
    {
      && k < inodes && k / IPG < Groups() && Gd(k / IPG).inodeBitmap < |d|
      && d[Gd(k / IPG).inodeBitmap].bits[k % IPG]
    }

    ghost function Allocs(): seq<bool>
      requires HasGeometry()
    {
      seq(blocks, (b: nat) => BAlloc(b))
    }

    ghost function IAllocs(): seq<bool>
      requires HasGeometry()
    {
      seq(inodes, (k: nat) => IAlloc(k))
    }

    /** Allocated and not reserved: the checker looks into it. */
    ghost predicate Checked(k: nat)
      requires Readable()
    {
      IAlloc(k) && (k == 1 || k >= 10)
    }

    ghost predicate CheckedIno(x: nat)
      requires Readable()
    {
      x > 0 && Checked(x - 1)
    }

    function InodeAt(k: nat): Inode
      requires HasGeometry() && k / IPG < Groups()
    {
      var loc := Gd(k / IPG).inodeTable + k % IPG / ITB;
      if loc < |d| then d[loc].inodes[k % ITB] else ZERO_INODE
    }

    /** The link count of a checked inode, by number. */
    ghost function LinksOf(x: nat): nat
      requires Readable()
    {
      if CheckedIno(x) then InodeAt(x - 1).links else 0
    }

    ghost function TreeTerm(b: nat): nat -> nat
      requires Readable()
    {
      (k: nat) => if Checked(k) then TreeCnt(d, InodeAt(k), b) else 0
    }

    /** How often block b is met in the trees of the first n inodes. */
    ghost function Owned(n: nat, b: nat): nat
      requires Readable()
    {
      Sum(n, TreeTerm(b))
    }

    ghost function RefTerm(x: nat): nat -> nat
      requires Readable()
    {
      (k: nat) => if Checked(k) && IsDir(InodeAt(k)) then ScanCnt(d, Allocs(), InodeAt(k), ByIno(x), 12) else 0
    }

    /** Directory records of the first n inodes naming inode x. */
    ghost function References(n: nat, x: nat): nat
      requires Readable()
    {
      Sum(n, RefTerm(x))
    }

    /** Block b is metadata according to the descriptor of group g. */
    ghost predicate MetaOf(g: nat, b: nat)
      requires Readable() && g < Groups()
    {
      || b == Gd(g).blockBitmap || b == Gd(g).inodeBitmap
      || Gd(g).inodeTable <= b < Gd(g).inodeTable + ITB
      || (g * BPG <= b < g * BPG + 1 + GdBlocks() && b < g * BPG + BPG && b < blocks)
    }

    ghost predicate IsMetadata(b: nat)
      requires Readable()
    {
      exists g: nat :: g < Groups() && MetaOf(g, b)
    }

    ghost predicate InodeSane(k: nat)
      requires Readable() && k / IPG < Groups()
    {
      var i := InodeAt(k);
      && KnownType(i) && i.dtime == 0 && i.links != 0
      && (IsDir(i) ==> DirSound(d, Allocs(), IAllocs(), i, 12))
    }

    /** Bitmaps and table inside the group, counters right, metadata and reserved inodes marked. */
    ghost predicate GroupSane(g: nat)
      requires Readable() && g < Groups()
    {
      var gd, start, nblk := Gd(g), g * BPG, NBlk(g);
      && start <= gd.blockBitmap < start + nblk && start <= gd.inodeBitmap < start + nblk
      && start <= gd.inodeTable && gd.inodeTable + ITB <= start + nblk
      && gd.freeBlocks == Clear(d[gd.blockBitmap].bits, nblk)
      && gd.freeInodes == Clear(d[gd.inodeBitmap].bits, NIno(g))
      && BAlloc(gd.blockBitmap) && BAlloc(gd.inodeBitmap)
      && (forall b: nat | gd.inodeTable <= b < gd.inodeTable + ITB :: BAlloc(b))
      && (forall b: nat | start <= b < start + 1 + GdBlocks() && b < start + nblk :: BAlloc(b))
      && (g == 0 ==> forall i: nat | i < 10 && i < NIno(0) :: d[gd.inodeBitmap].bits[i])
    }

    ghost function FreeBlocksTerm(): nat -> nat
      requires HasGeometry()
    {
      (g: nat) => if g < Groups() && Gd(g).blockBitmap < |d| && NBlk(g) <= BPG
                  then Clear(d[Gd(g).blockBitmap].bits, NBlk(g)) else 0
    }

    ghost function FreeInodesTerm(): nat -> nat
      requires HasGeometry()
    {
      (g: nat) => if g < Groups() && Gd(g).inodeBitmap < |d| && NIno(g) <= BPG
                  then Clear(d[Gd(g).inodeBitmap].bits, NIno(g)) else 0
    }

    /** The conditions of the whole check, apart from readability. */
    ghost predicate Consistent(freeBlocks: nat, freeInodes: nat)
      requires Readable()
    {
      && (forall g: nat | g < Groups() :: GroupSane(g))
      && (forall k: nat | k < inodes && Checked(k) :: InodeSane(k))
      && (forall b: nat :: Owned(inodes, b) <= if BAlloc(b) && !IsMetadata(b) then 1 else 0)
      && (forall b: nat | BAlloc(b) :: IsMetadata(b) || Owned(inodes, b) > 0)
      && Sum(Groups(), FreeBlocksTerm()) == freeBlocks && Sum(Groups(), FreeInodesTerm()) == freeInodes
      && (forall x: nat | CheckedIno(x) :: References(inodes, x) == LinksOf(x))
    }
  }

  /** The image passes every check. */
  ghost predicate Clean(d: seq<Block>) {
    && 1 <= |d| && d[0].super.magic == 0xEF53
    && var img := Img(d, d[0].super.blocksCount, d[0].super.inodesCount);
    img.Readable() && img.Consistent(d[0].super.freeBlocks, d[0].super.freeInodes)
  }
}
