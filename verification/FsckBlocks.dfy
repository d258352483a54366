/** The checker's block ownership: claiming the blocks of one inode's tree. */
module FsckBlocks {
  import opened Ext2Layout

  /** fsck_block_context */
  class Context {
    const dev: seq<Block>
    const count: nat
    const inodeCount: nat
    var allocd: seq<bool>
    var owners: seq<nat>
    var inodeAllocd: seq<bool>
    var directoryRefs: seq<nat>
    var inodeLinks: seq<nat>
    var inodeChecked: seq<bool>

    ghost predicate Sized()
      reads this
    {
      && count <= |dev| && |allocd| == |owners| == count
      && |inodeAllocd| == inodeCount && |directoryRefs| == |inodeLinks| == |inodeChecked| == inodeCount + 1
    }

    constructor (dev: seq<Block>, count: nat, inodeCount: nat)
      requires count <= |dev|
      ensures Sized() && this.dev == dev && this.count == count && this.inodeCount == inodeCount
      ensures allocd == seq(count, _ => false) && owners == seq(count, _ => 0)
      ensures inodeAllocd == seq(inodeCount, _ => false) && directoryRefs == seq(inodeCount + 1, _ => 0)
      ensures inodeLinks == seq(inodeCount + 1, _ => 0) && inodeChecked == seq(inodeCount + 1, _ => false)
    {
      this.dev, this.count, this.inodeCount := dev, count, inodeCount;
      allocd, owners := seq(count, _ => false), seq(count, _ => 0);
      inodeAllocd, directoryRefs := seq(inodeCount, _ => false), seq(inodeCount + 1, _ => 0);
      inodeLinks, inodeChecked := seq(inodeCount + 1, _ => 0), seq(inodeCount + 1, _ => false);
    }

    /** claim: the number of errors, and whether the block is newly owned. */
    method Claim(ino: nat, block: nat) returns (errors: nat, claimed: bool)
      requires Sized() && ino > 0
      modifies this`owners
      ensures Sized()
      ensures errors == 0 <==> Avail(old(owners), allocd, block) == 1
      ensures claimed ==> block < count && owners == old(owners)[block := ino]
      ensures errors == 0 ==> claimed
    {
      errors, claimed := 0, false;
      if block >= count { return 1, false; }
      if !allocd[block] { errors := errors + 1; }
      if owners[block] != 0 { return errors + 1, false; }
      owners := owners[block := ino];
      claimed := true;
    }

    /** walk */
    method Walk(ino: nat, block: nat, depth: nat) returns (errors: nat)
      requires Sized() && ino > 0
      modifies this`owners
      ensures Sized()
      ensures errors == 0 <==> forall b: nat :: WalkCnt(dev, block, depth, b) <= Avail(old(owners), allocd, b)
      ensures errors == 0 ==> forall b: nat ::
        Avail(owners, allocd, b) + WalkCnt(dev, block, depth, b) == Avail(old(owners), allocd, b)
      ensures errors == 0 ==> forall b | 0 <= b < count ::
        owners[b] == if WalkCnt(dev, block, depth, b) > 0 then ino else old(owners)[b]
      decreases depth
    {
      if block == 0 { return 0; }
      ghost var owners0 := owners;
      assert WalkCnt(dev, block, depth, block) >= 1;
      var claimed;
      errors, claimed := Claim(ino, block);
      if !claimed || depth == 0 { return; }
      var buf := dev[block].ptrs;
      var j := 0;
      while j < PTRS
        invariant 0 <= j <= PTRS && Sized()
        invariant errors == 0 <==> forall b: nat ::
          Met(block, b) + PtrsCnt(dev, buf, depth - 1, b, j) <= Avail(owners0, allocd, b)
        invariant errors == 0 ==> forall b: nat ::
          Avail(owners, allocd, b) + Met(block, b) + PtrsCnt(dev, buf, depth - 1, b, j) == Avail(owners0, allocd, b)
        invariant errors == 0 ==> forall b | 0 <= b < count ::
          owners[b] == if Met(block, b) + PtrsCnt(dev, buf, depth - 1, b, j) > 0 then ino else owners0[b]
      {
        var child := buf[j];
        ghost var was := owners;
        var more := Walk(ino, child, depth - 1);
        errors := errors + more;
        j := j + 1;
      }
    }

    /** fsck_check_direct */
    method CheckDirect(ino: nat, inode: Inode) returns (errors: nat)
      requires Sized() && ino > 0
      modifies this`owners
      ensures Sized()
      ensures errors == 0 <==> forall b: nat :: TreeCnt(dev, inode, b) <= Avail(old(owners), allocd, b)
      ensures errors == 0 ==> forall b: nat ::
        Avail(owners, allocd, b) + TreeCnt(dev, inode, b) == Avail(old(owners), allocd, b)
      ensures errors == 0 ==> forall b | 0 <= b < count ::
        owners[b] == if TreeCnt(dev, inode, b) > 0 then ino else old(owners)[b]
    {
      errors := 0;
      if IsLink(inode) && inode.size <= 60 && inode.blocks == 0 { return; }
      if IsNode(inode) { return; }
      ghost var owners0 := owners;
      var j := 0;
      while j < 15
        invariant 0 <= j <= 15 && Sized()
        invariant errors == 0 <==> forall b: nat :: SlotsCnt(dev, inode, b, j) <= Avail(owners0, allocd, b)
        invariant errors == 0 ==> forall b: nat ::
          Avail(owners, allocd, b) + SlotsCnt(dev, inode, b, j) == Avail(owners0, allocd, b)
        invariant errors == 0 ==> forall b | 0 <= b < count ::
          owners[b] == if SlotsCnt(dev, inode, b, j) > 0 then ino else owners0[b]
      {
        var more := Walk(ino, inode.block[j], if j < 12 then 0 else j - 11);
        errors := errors + more;
        j := j + 1;
      }
    }
  }

  /** 1 when block b is allocated and nobody's yet. */
  ghost function Avail(owners: seq<nat>, allocd: seq<bool>, b: nat): nat {
    if b < |owners| && b < |allocd| && owners[b] == 0 && allocd[b] then 1 else 0
  }

  ghost function Met(block: nat, b: nat): nat { if block == b then 1 else 0 }
}
