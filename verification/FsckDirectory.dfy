/** The checker's record-chain validation and reference counting. */
module FsckDirectory {
  import opened Ext2Layout
  import opened FsckBlocks

  /** A direct slot the checker reads: inside the size, a block number in range and allocated. */
  ghost predicate Scanned(allocd: seq<bool>, i: Inode, j: nat) {
    j < 12 && j * BS < i.size && 0 < i.block[j] < |allocd| && allocd[i.block[j]]
  }

  /** An inode number a record may hold. */
  ghost predicate Target(inodeAllocd: seq<bool>, x: nat) { 1 <= x <= |inodeAllocd| && inodeAllocd[x - 1] }

  /** Records answering q in the first n slots the checker reads. */
  ghost function ScanCnt(d: seq<Block>, allocd: seq<bool>, i: Inode, q: Query, n: nat): nat
    requires n <= 12 && |allocd| <= |d|
  {
    if n == 0 then 0
    else ScanCnt(d, allocd, i, q, n - 1) +
         (if Scanned(allocd, i, n - 1) then RecCnt(d[i.block[n - 1]].recs, 0, q) else 0)
  }

  /** From pos on: tiled, and every live record names an allocated inode. */
  ghost predicate SoundFrom(recs: seq<Rec>, pos: nat, inodeAllocd: seq<bool>)
    requires |recs| == BS
    decreases BS - pos
  {
    pos == BS ||
    (RecFits(recs, pos) && recs[pos].recLen % 4 == 0 && 8 + |recs[pos].name| <= recs[pos].recLen
     && (recs[pos].ino != 0 ==> Target(inodeAllocd, recs[pos].ino))
     && SoundFrom(recs, pos + recs[pos].recLen, inodeAllocd))
  }

  /** What SoundFrom says, in terms of tiling and of counts. */
  lemma {:induction false} SoundMeans(recs: seq<Rec>, pos: nat, inodeAllocd: seq<bool>)
    requires |recs| == BS
    ensures SoundFrom(recs, pos, inodeAllocd) <==>
      Tiles(recs, pos) && forall x: nat :: RecCnt(recs, pos, ByIno(x)) > 0 ==> Target(inodeAllocd, x)
    decreases BS - pos
  {
    if RecFits(recs, pos) {
      var next := pos + recs[pos].recLen;
      SoundMeans(recs, next, inodeAllocd);
      forall x: nat
        ensures RecCnt(recs, pos, ByIno(x)) == (if Hit(ByIno(x), recs[pos]) then 1 else 0) + RecCnt(recs, next, ByIno(x))
      {}
      assert recs[pos].ino != 0 ==> RecCnt(recs, pos, ByIno(recs[pos].ino)) > 0;
    }
  }

  /** All scanned blocks of a directory are sound. */
  ghost predicate DirSound(d: seq<Block>, allocd: seq<bool>, inodeAllocd: seq<bool>, i: Inode, n: nat)
    requires n <= 12 && |allocd| <= |d|
  {
    forall j: nat | j < n && Scanned(allocd, i, j) :: SoundFrom(d[i.block[j]].recs, 0, inodeAllocd)
  }

  /** The loop over one block's records. */
  method ScanBlock(c: Context, buf: seq<Rec>) returns (errors: nat)
    requires c.Sized() && |buf| == BS
    modifies c`directoryRefs
    ensures c.Sized()
    ensures errors == 0 <==> SoundFrom(buf, 0, c.inodeAllocd)
    ensures errors == 0 ==> forall x: nat | 0 < x < |c.directoryRefs| ::
      c.directoryRefs[x] == old(c.directoryRefs)[x] + RecCnt(buf, 0, ByIno(x))
  {
    errors := 0;
    var pos := 0;
    while pos < BS
      invariant 0 <= pos <= BS && c.Sized()
      invariant errors == 0 ==> SoundFrom(buf, 0, c.inodeAllocd) == SoundFrom(buf, pos, c.inodeAllocd)
      invariant errors > 0 ==> !SoundFrom(buf, 0, c.inodeAllocd)
      invariant errors == 0 ==> forall x: nat | 0 < x < |c.directoryRefs| ::
        c.directoryRefs[x] + RecCnt(buf, pos, ByIno(x)) == old(c.directoryRefs)[x] + RecCnt(buf, 0, ByIno(x))
    {
      if pos + 8 > BS { errors := errors + 1; break; }
      var r := buf[pos];
      if r.recLen < 8 || r.recLen % 4 != 0 || r.recLen > BS - pos || |r.name| + 8 > r.recLen {
        errors := errors + 1;
        break;
      }
      if r.ino != 0 {
        if r.ino > c.inodeCount || !c.inodeAllocd[r.ino - 1] {
          errors := errors + 1;
        } else {
          c.directoryRefs := c.directoryRefs[r.ino := c.directoryRefs[r.ino] + 1];
        }
      }
      pos := pos + r.recLen;
    }
  }

  /** fsck_check_directory */
  method CheckDirectory(c: Context, inode: Inode) returns (errors: nat)
    requires c.Sized()
    modifies c`directoryRefs
    ensures c.Sized()
    ensures errors == 0 <==> DirSound(c.dev, c.allocd, c.inodeAllocd, inode, 12)
    ensures errors == 0 ==> forall x: nat | 0 < x < |c.directoryRefs| ::
      c.directoryRefs[x] == old(c.directoryRefs)[x] + ScanCnt(c.dev, c.allocd, inode, ByIno(x), 12)
  {
    errors := 0;
    var j := 0;
    while j < 12 && j * BS < inode.size
      invariant 0 <= j <= 12 && c.Sized()
      invariant errors == 0 <==> DirSound(c.dev, c.allocd, c.inodeAllocd, inode, j)
      invariant errors == 0 ==> forall x: nat | 0 < x < |c.directoryRefs| ::
        c.directoryRefs[x] == old(c.directoryRefs)[x] + ScanCnt(c.dev, c.allocd, inode, ByIno(x), j)
    {
      var b := inode.block[j];
      if b != 0 && b < c.count && c.allocd[b] {
        assert Scanned(c.allocd, inode, j);
        var more := ScanBlock(c, c.dev[b].recs);
        errors := errors + more;
      } else {
        assert !Scanned(c.allocd, inode, j);
      }
      j := j + 1;
    }
    RestUnscanned(c.dev, c.allocd, inode, j, 12);
  }

  lemma {:induction false} RestUnscanned(d: seq<Block>, allocd: seq<bool>, i: Inode, j: nat, n: nat)
    requires j <= n <= 12 && |allocd| <= |d| && (j < 12 ==> j * BS >= i.size)
    ensures forall x: nat :: ScanCnt(d, allocd, i, ByIno(x), n) == ScanCnt(d, allocd, i, ByIno(x), j)
    ensures forall k: nat | j <= k < n :: !Scanned(allocd, i, k)
  {
    if j < n { RestUnscanned(d, allocd, i, j, n - 1); }
  }
}
