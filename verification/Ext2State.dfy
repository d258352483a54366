/** The abstract state of an EXT2 volume and what every operation keeps. */
module Ext2State {
  import opened Sums
  import opened Ext2Layout

  /** What the metadata says, group by group, and the contents of the blocks. */
  datatype Fs = Fs(geo: Geo,
                   bits: seq<seq<bool>>, freeB: seq<nat>, totB: nat,
                   ibits: seq<seq<bool>>, freeI: seq<nat>, totI: nat, usedD: seq<nat>,
                   inodes: seq<Inode>, blk: seq<Block>)

  ghost predicate Shape(fs: Fs) {
    && fs.geo.Valid()
    && |fs.bits| == |fs.freeB| == |fs.ibits| == |fs.freeI| == |fs.usedD| == fs.geo.groups
    && (forall g | 0 <= g < fs.geo.groups :: |fs.bits[g]| == BPG && |fs.ibits[g]| == BPG)
    && |fs.inodes| == fs.geo.Inodes()
    && fs.geo.blocks <= |fs.blk|
  }

  ghost function BoolTerm(bits: seq<bool>): nat -> nat {
    (k: nat) => if k < |bits| && !bits[k] then 1 else 0
  }

  /** Number of clear bits among the first n. */
  ghost function Clear(bits: seq<bool>, n: nat): nat { Sum(n, BoolTerm(bits)) }

  ghost function Total(s: seq<nat>): nat {
    Sum(|s|, (k: nat) => if k < |s| then s[k] else 0)
  }

  /** Bitmap bit of block b. */
  ghost predicate Alloc(fs: Fs, b: nat)
    requires Shape(fs)
  {
    b < fs.geo.blocks && fs.bits[b / BPG][b % BPG]
  }

  ghost predicate IAlloc(fs: Fs, k: nat)
    requires Shape(fs)
  {
    k < |fs.inodes| && fs.ibits[k / IPG][k % IPG]
  }

  /** Allocated and not one of the reserved inodes (k is the inode number less one). */
  ghost predicate Used(fs: Fs, k: nat)
    requires Shape(fs)
  {
    IAlloc(fs, k) && (k == 1 || k >= 10)
  }

  // ---- free counts ----

  ghost predicate BlockCounts(fs: Fs)
    requires Shape(fs)
  {
    && (forall g | 0 <= g < fs.geo.groups :: fs.freeB[g] == Clear(fs.bits[g], fs.geo.GroupBlocks(g)))
    && fs.totB == Total(fs.freeB)
  }

  ghost predicate InodeCounts(fs: Fs)
    requires Shape(fs)
  {
    && (forall g | 0 <= g < fs.geo.groups :: fs.freeI[g] == Clear(fs.ibits[g], IPG))
    && fs.totI == Total(fs.freeI)
  }

  // ---- ownership and links ----

  /** Debt(spare, newborn, lone, parent, grown, uncounted): what a half-finished operation still owes.
      spare: blocks marked allocated that no inode owns yet;
      newborn: inode marked allocated but not written yet (number, 0 for none);
      lone: inode whose directory entry is not there yet (or is there no more);
      parent: directory already named by a new child's ".." but not yet counting it;
      grown: directory that already lists a new child but does not count it yet;
      uncounted: directory that its group does not count yet. */
  datatype Debt = Debt(spare: set<nat>, newborn: nat, lone: nat, parent: nat, grown: nat, uncounted: nat)

  const NO_DEBT: Debt := Debt({}, 0, 0, 0, 0, 0)

  ghost predicate Counted(fs: Fs, newborn: nat, k: nat)
    requires Shape(fs)
  {
    Used(fs, k) && k + 1 != newborn
  }

  ghost function OwnTerm(fs: Fs, newborn: nat, b: nat): nat -> nat
    requires Shape(fs)
  {
    (k: nat) => if Counted(fs, newborn, k) then TreeCnt(fs.blk, fs.inodes[k], b) else 0
  }

  /** How many times block b is met in the trees of all inodes. */
  ghost function Own(fs: Fs, newborn: nat, b: nat): nat
    requires Shape(fs)
  {
    Sum(|fs.inodes|, OwnTerm(fs, newborn, b))
  }

  ghost function RefTerm(fs: Fs, newborn: nat, q: Query): nat -> nat
    requires Shape(fs)
  {
    (k: nat) => if Counted(fs, newborn, k) && IsDir(fs.inodes[k]) then DirCnt(fs.blk, fs.inodes[k], q) else 0
  }

  /** How many records of all directories answer q. */
  ghost function Refs(fs: Fs, newborn: nat, q: Query): nat
    requires Shape(fs)
  {
    Sum(|fs.inodes|, RefTerm(fs, newborn, q))
  }

  ghost predicate Ours(fs: Fs, spare: set<nat>, b: nat)
    requires Shape(fs)
  {
    Alloc(fs, b) && !fs.geo.IsMeta(b) && b !in spare
  }

  /** Every allocated block beyond metadata and spares is met exactly once, every other never. */
  ghost predicate Ownership(fs: Fs, spare: set<nat>, newborn: nat)
    requires Shape(fs)
  {
    && (forall b: nat :: Own(fs, newborn, b) == if Ours(fs, spare, b) then 1 else 0)
    && (forall b: nat | b < fs.geo.blocks && fs.geo.IsMeta(b) :: Alloc(fs, b))
    && (forall b | b in spare :: Alloc(fs, b) && !fs.geo.IsMeta(b))
  }

  ghost function LinksOf(fs: Fs, newborn: nat, x: nat): nat
    requires Shape(fs)
  {
    if x > 0 && Counted(fs, newborn, x - 1) then fs.inodes[x - 1].links else 0
  }

  /** Link counts equal directory references, and nothing names an inode that is not in use. */
  ghost predicate LinksMatch(fs: Fs, debt: Debt)
    requires Shape(fs)
  {
    forall x: nat | x > 0 ::
      Refs(fs, debt.newborn, ByIno(x)) + (if x == debt.lone then 1 else 0)
        == LinksOf(fs, debt.newborn, x) + (if x == debt.parent then 1 else 0)
  }

  ghost predicate InodeOK(fs: Fs, debt: Debt, k: nat)
    requires Shape(fs) && k < |fs.inodes|
  {
    var i := fs.inodes[k];
    && KnownType(i) && i.dtime == 0 && i.links >= 1
    && (IsDir(i) ==>
          && DirShape(fs.blk, i)
          && DirCnt(fs.blk, i, SubDirs) == i.links + (if k + 1 == debt.grown then 1 else 0)
          && (forall nm: string :: DirCnt(fs.blk, i, ByName(nm)) <= 1))
    && (!IsDir(i) ==> i.links == 1)
    && (IsReg(i) ==> i.block[14] == 0)
  }

  ghost predicate Inodes(fs: Fs, debt: Debt)
    requires Shape(fs)
  {
    && (forall k: nat | k < |fs.inodes| && Counted(fs, debt.newborn, k) :: InodeOK(fs, debt, k))
    && (forall k: nat | k < 10 :: IAlloc(fs, k))
    && Used(fs, 1) && IsDir(fs.inodes[1])
    && (debt.newborn != 0 ==> Used(fs, debt.newborn - 1))
  }

  // ---- directories of a group ----

  /** The k-th inode is a directory in use. */
  ghost predicate CountsAsDir(fs: Fs, newborn: nat, k: nat)
    requires Shape(fs)
  {
    Counted(fs, newborn, k) && IsDir(fs.inodes[k])
  }

  ghost function DirTerm(fs: Fs, newborn: nat, g: nat): nat -> nat
    requires Shape(fs)
  {
    (k: nat) => if CountsAsDir(fs, newborn, g * IPG + k) then 1 else 0
  }

  /** How many directories have their inode in group g. */
  ghost function GroupDirs(fs: Fs, newborn: nat, g: nat): nat
    requires Shape(fs)
  {
    Sum(IPG, DirTerm(fs, newborn, g))
  }

  /** Group g is still to count this inode. */
  predicate Uncounted(debt: Debt, g: nat) { debt.uncounted != 0 && (debt.uncounted - 1) / IPG == g }

  /** The descriptors count the directories of their groups. */
  ghost predicate DirCounts(fs: Fs, debt: Debt)
    requires Shape(fs)
  {
    forall g: nat | g < fs.geo.groups ::
      fs.usedD[g] + (if Uncounted(debt, g) then 1 else 0) == GroupDirs(fs, debt.newborn, g)
  }

  ghost predicate InvX(fs: Fs, debt: Debt) {
    && Shape(fs)
    && BlockCounts(fs) && InodeCounts(fs) && DirCounts(fs, debt)
    && Ownership(fs, debt.spare, debt.newborn)
    && Inodes(fs, debt)
    && LinksMatch(fs, debt)
  }

  /** What holds between any two operations. */
  ghost predicate Inv(fs: Fs) { InvX(fs, NO_DEBT) }
}
