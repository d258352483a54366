/** On-disk layout of the EXT2 images that mkfs_ext2_core makes: 4096-byte blocks, 32768 blocks and
    1024 inodes a group, a superblock and descriptor copy at the start of every group.

    A block is modelled by all of its readings at once.  Whatever 4096 bytes a block holds, each
    reading (bitmap, pointers, records, ...) is determined; a write fixes the reading it is for and
    nothing is ever assumed about the others, so no theorem depends on how readings overlap. */
module Ext2Layout {
  import Bytes
  import opened Sums

  const BS: nat := 4096
  const BPG: nat := 32768
  const IPG: nat := 1024
  const PTRS: nat := 1024
  const PER_DESC: nat := 128
  const ITB: nat := 32

  type Byte = Bytes.Byte

  datatype Super = Super(magic: nat, inodesCount: nat, blocksCount: nat, freeBlocks: nat, freeInodes: nat)

  datatype Group = Group(blockBitmap: nat, inodeBitmap: nat, inodeTable: nat,
                         freeBlocks: nat, freeInodes: nat, usedDirs: nat)

  datatype InodeFields = InodeFields(mode: nat, size: nat, dtime: nat, links: nat, blocks: nat, block: seq<nat>)

  const NO_BLOCKS: seq<nat> := [0, 0, 0, 0, 0, 0, 0, 0, 0, 0, 0, 0, 0, 0, 0]

  const ZERO_INODE: InodeFields := InodeFields(0, 0, 0, 0, 0, NO_BLOCKS)

  type Inode = i: InodeFields | |i.block| == 15 witness ZERO_INODE

  datatype Rec = Rec(ino: nat, recLen: nat, ftype: nat, name: string)

  datatype BlockViews = BlockViews(super: Super, descs: seq<Group>, bits: seq<bool>, inodes: seq<Inode>,
                                   ptrs: seq<nat>, recs: seq<Rec>, data: seq<Byte>)

  type Block = b: BlockViews |
    && |b.descs| == PER_DESC && |b.bits| == BPG && |b.inodes| == ITB
    && |b.ptrs| == PTRS && |b.recs| == BS && |b.data| == BS
    witness ZERO_BLOCK

  const ZERO_BLOCK: BlockViews :=
    BlockViews(Super(0, 0, 0, 0, 0), seq(PER_DESC, _ => Group(0, 0, 0, 0, 0, 0)), seq(BPG, _ => false),
               seq(ITB, _ => ZERO_INODE), seq(PTRS, _ => 0), seq(BS, _ => Rec(0, 0, 0, "")), seq(BS, _ => 0))

  // ---- file types (top four bits of i_mode) ----

  function FileType(mode: nat): nat { mode / 4096 % 16 }
  predicate IsDir(i: Inode) { FileType(i.mode) == 4 }
  predicate IsReg(i: Inode) { FileType(i.mode) == 8 }
  predicate IsLink(i: Inode) { FileType(i.mode) == 10 }
  predicate IsNode(i: Inode) { FileType(i.mode) in {1, 2, 6, 12} }
  predicate KnownType(i: Inode) { IsDir(i) || IsReg(i) || IsLink(i) || IsNode(i) }

  /** Inodes whose i_block words are not block numbers: short symlinks and special files. */
  predicate NoTree(i: Inode) { (IsLink(i) && i.size <= 60 && i.blocks == 0) || IsNode(i) }

  // ---- geometry ----

  datatype Geo = Geo(blocks: nat, groups: nat) {
    predicate Valid() {
      && 1 <= groups <= 65535
      && (groups - 1) * BPG < blocks <= groups * BPG
      && blocks - (groups - 1) * BPG > DataRel()
    }
    function GdtBlocks(): nat { (groups + PER_DESC - 1) / PER_DESC }
    function BbRel(): nat { 1 + GdtBlocks() }
    function DataRel(): nat { BbRel() + 2 + ITB }
    function BbLoc(g: nat): nat { g * BPG + BbRel() }
    function IbLoc(g: nat): nat { g * BPG + BbRel() + 1 }
    function ItLoc(g: nat): nat { g * BPG + BbRel() + 2 }
    function GroupBlocks(g: nat): nat
      requires g * BPG <= blocks
    {
      if blocks - g * BPG > BPG then BPG else blocks - g * BPG
    }
    predicate IsMeta(b: nat) { b % BPG < DataRel() }
    function Inodes(): nat { groups * IPG }
  }

  // ---- pointer trees ----

  /** Levels of indirection below i_block[j]. */
  function Depth(j: nat): nat { if j < 12 then 0 else j - 11 }

  /** How often block b is met when the tree below blk is walked. */
  ghost function WalkCnt(d: seq<Block>, blk: nat, depth: nat, b: nat): nat
    decreases depth, 0
  {
    if blk == 0 then 0
    else (if blk == b then 1 else 0) +
         (if depth == 0 || blk >= |d| then 0 else PtrsCnt(d, d[blk].ptrs, depth - 1, b, PTRS))
  }

  ghost function PtrsCnt(d: seq<Block>, ptrs: seq<nat>, depth: nat, b: nat, n: nat): nat
    requires n <= |ptrs|
    decreases depth, n + 1
  {
    if n == 0 then 0 else PtrsCnt(d, ptrs, depth, b, n - 1) + WalkCnt(d, ptrs[n - 1], depth, b)
  }

  /** How often block b is met in the whole tree of an inode. */
  ghost function TreeCnt(d: seq<Block>, i: Inode, b: nat): nat {
    if NoTree(i) then 0 else SlotsCnt(d, i, b, 15)
  }

  ghost function SlotsCnt(d: seq<Block>, i: Inode, b: nat, n: nat): nat
    requires n <= 15
  {
    if n == 0 then 0 else SlotsCnt(d, i, b, n - 1) + WalkCnt(d, i.block[n - 1], Depth(n - 1), b)
  }

  // ---- directory blocks ----

  datatype Query = ByIno(x: nat) | ByName(nm: string) | SubDirs | Live

  predicate Hit(q: Query, r: Rec) {
    r.ino != 0 && match q
      case ByIno(x) => r.ino == x
      case ByName(nm) => r.name == nm
      case SubDirs => r.ftype == 2
      case Live => true
  }

  /** Space a record with an n-character name needs: dirent_min_rec_len. */
  function MinRec(n: nat): (r: nat)
    ensures r % 4 == 0 && 8 + n <= r < 12 + n
  {
    (8 + n + 3) / 4 * 4
  }

  predicate RecFits(recs: seq<Rec>, pos: nat)
    requires |recs| == BS
  {
    pos + 8 <= BS && recs[pos].recLen >= 8 && pos + recs[pos].recLen <= BS
  }

  /** From pos on, 4-aligned records tile the block exactly and hold their names. */
  ghost predicate Tiles(recs: seq<Rec>, pos: nat)
    requires |recs| == BS
    decreases BS - pos
  {
    pos == BS ||
    (RecFits(recs, pos) && recs[pos].recLen % 4 == 0 && 8 + |recs[pos].name| <= recs[pos].recLen &&
     Tiles(recs, pos + recs[pos].recLen))
  }

  /** Number of records from pos on that answer q. */
  ghost function RecCnt(recs: seq<Rec>, pos: nat, q: Query): nat
    requires |recs| == BS
    decreases BS - pos
  {
    if !RecFits(recs, pos) then 0
    else (if Hit(q, recs[pos]) then 1 else 0) + RecCnt(recs, pos + recs[pos].recLen, q)
  }

  /** Records answering q in the first n direct blocks of directory i. */
  ghost function DirCnt(d: seq<Block>, i: Inode, q: Query, n: nat := 12): nat
    requires n <= 12
  {
    if n == 0 then 0
    else DirCnt(d, i, q, n - 1) +
         (if 0 < i.block[n - 1] < |d| then RecCnt(d[i.block[n - 1]].recs, 0, q) else 0)
  }

  /** First live record with the given name from pos on, as the readers' loop finds it. */
  ghost function FindFrom(recs: seq<Rec>, pos: nat, name: string): (r: Rec)
    requires |recs| == BS
    decreases BS - pos
  {
    if !RecFits(recs, pos) then Rec(0, 0, 0, "")
    else if Hit(ByName(name), recs[pos]) then recs[pos]
    else FindFrom(recs, pos + recs[pos].recLen, name)
  }

  datatype Found = Missing | Entry(ino: nat, ftype: nat)

  /** The directory as a map from names to inodes: first match over blocks j, j+1, ... */
  ghost function Lookup(d: seq<Block>, i: Inode, name: string, j: nat := 0): Found
    decreases 12 - j
  {
    if j >= 12 || i.block[j] == 0 || i.block[j] >= |d| then Missing
    else
      var r := FindFrom(d[i.block[j]].recs, 0, name);
      if r.ino != 0 then Entry(r.ino, r.ftype) else Lookup(d, i, name, j + 1)
  }

  /** A directory inode: size in whole blocks, counted in sectors too, a full prefix of direct slots, tiled blocks. */
  ghost predicate DirShape(d: seq<Block>, i: Inode) {
    && i.size % BS == 0 && 1 <= i.size / BS <= 12 && i.blocks == i.size / 512
    && (forall j | 0 <= j < 15 :: i.block[j] != 0 <==> j < i.size / BS)
    && (forall j | 0 <= j < i.size / BS :: i.block[j] < |d| && Tiles(d[i.block[j]].recs, 0))
  }

  // ---- regular files ----

  /** Disk block behind logical block lbn; 0 is a hole. */
  ghost function BlockAt(d: seq<Block>, i: Inode, lbn: nat): nat {
    if lbn < 12 then i.block[lbn]
    else if lbn < 12 + PTRS then PtrOf(d, i.block[12], lbn - 12)
    else
      var rel := lbn - 12 - PTRS;
      if rel / PTRS < PTRS then PtrOf(d, PtrOf(d, i.block[13], rel / PTRS), rel % PTRS) else 0
  }

  ghost function PtrOf(d: seq<Block>, blk: nat, j: nat): nat
    requires j < PTRS
  {
    if 0 < blk < |d| then d[blk].ptrs[j] else 0
  }

  ghost function FileByte(d: seq<Block>, i: Inode, pos: nat): Byte {
    var b := BlockAt(d, i, pos / BS);
    if 0 < b < |d| then d[b].data[pos % BS] else 0
  }

  ghost function FileBytes(d: seq<Block>, i: Inode): seq<Byte> {
    seq(i.size, (pos: nat) => FileByte(d, i, pos))
  }
}
