/** Steps that take, write and drop inodes and edit directory blocks. */
module Ext2DirSteps {
  import opened Sums
  import opened Ext2Layout
  import opened Ext2State
  import opened Ext2Frames
  import opened Ext2Steps

  /** fs2 is fs with exactly the bitmap bit of the k-th inode set to v, the counters following. */
  ghost predicate IBitSet(fs: Fs, fs2: Fs, k: nat, v: bool) {
    && Shape(fs) && Shape(fs2)
    && fs2 == fs.(ibits := fs2.ibits, freeI := fs2.freeI, totI := fs2.totI)
    && InodeCounts(fs2)
    && k < |fs.inodes|
    && (forall j: nat :: IAlloc(fs2, j) == if j == k then v else IAlloc(fs, j))
  }

  ghost function TreeSet(fs: Fs, k: nat): set<nat>
    requires Shape(fs) && k < |fs.inodes|
  {
    set b: nat | b < fs.geo.blocks && TreeCnt(fs.blk, fs.inodes[k], b) > 0
  }

  lemma TreeIsOurs(fs: Fs, debt: Debt, k: nat, b: nat)
    requires InvX(fs, debt) && k < |fs.inodes| && Counted(fs, debt.newborn, k)
    ensures TreeCnt(fs.blk, fs.inodes[k], b) <= 1
    ensures TreeCnt(fs.blk, fs.inodes[k], b) > 0 ==> Ours(fs, debt.spare, b)
    ensures TreeCnt(fs.blk, fs.inodes[k], b) == One(b in TreeSet(fs, k))
  {
    hide TreeCnt, Inodes, LinksMatch, InodeCounts, BlockCounts, Geo.IsMeta;
    SumMember(|fs.inodes|, OwnTerm(fs, debt.newborn, b), k);
    assert Own(fs, debt.newborn, b) <= 1;
  }

  /** No two inodes share a block. */
  lemma TreesApart(fs: Fs, debt: Debt, k: nat, j: nat, b: nat)
    requires InvX(fs, debt) && k < |fs.inodes| && j < |fs.inodes| && k != j
    requires Counted(fs, debt.newborn, k) && Counted(fs, debt.newborn, j)
    ensures TreeCnt(fs.blk, fs.inodes[k], b) == 0 || TreeCnt(fs.blk, fs.inodes[j], b) == 0
  {
    hide TreeCnt, Inodes, LinksMatch, InodeCounts, BlockCounts, Geo.IsMeta;
    var lo, hi := if k < j then k else j, if k < j then j else k;
    SumTwoMembers(|fs.inodes|, OwnTerm(fs, debt.newborn, b), lo, hi);
    assert Own(fs, debt.newborn, b) <= 1;
  }

  lemma OthersAlike(fs: Fs, fs2: Fs, n: nat, n2: nat, k: nat)
    requires Shape(fs) && Shape(fs2) && fs.geo == fs2.geo && fs.blk == fs2.blk
    requires forall j: nat | j < |fs.inodes| && j != k :: fs.inodes[j] == fs2.inodes[j]
    requires forall j: nat | j < |fs.inodes| && j != k :: Counted(fs, n, j) == Counted(fs2, n2, j)
    ensures AlikeBut(fs, n, fs2, n2, k)
  {
    hide TreeCnt, DirCnt, DirShape, Counted, Geo.Valid;
  }

  lemma LinksOfOthers(fs: Fs, fs2: Fs, n: nat, n2: nat, k: nat)
    requires Shape(fs) && Shape(fs2) && fs.geo == fs2.geo
    requires forall j: nat | j < |fs.inodes| && j != k :: fs.inodes[j].links == fs2.inodes[j].links
    requires forall j: nat | j < |fs.inodes| && j != k :: Counted(fs, n, j) == Counted(fs2, n2, j)
    ensures forall x: nat | x != k + 1 :: LinksOf(fs, n, x) == LinksOf(fs2, n2, x)
  {
    hide Geo.Valid;
    forall x: nat | x != k + 1 ensures LinksOf(fs, n, x) == LinksOf(fs2, n2, x) {
      if 0 < x <= |fs.inodes| {
        assert Counted(fs, n, x - 1) == Counted(fs2, n2, x - 1);
      }
    }
  }

  lemma TakeInode(fs: Fs, debt: Debt, fs2: Fs, k: nat)
    requires InvX(fs, debt) && debt.newborn == 0
    requires IBitSet(fs, fs2, k, true) && !IAlloc(fs, k) && k >= 10
    ensures InvX(fs2, debt.(newborn := k + 1))
  {
    hide TreeCnt, DirCnt, DirShape, Geo.Valid, Geo.IsMeta, KnownType, NoTree, Own, Refs, Clear, Total, IAlloc;
    var debt2 := debt.(newborn := k + 1);
    assert forall j: nat :: Counted(fs, 0, j) == Counted(fs2, k + 1, j);
    OthersAlike(fs, fs2, 0, k + 1, |fs.inodes|);
    LinksOfOthers(fs, fs2, 0, k + 1, |fs.inodes|);
    assert Alike(fs, 0, fs2, k + 1, 1);
    forall b: nat ensures BlocksMove(fs, debt, fs2, debt2, 1, b) {}
    forall x: nat | x > 0 ensures LinksMove(fs, debt, fs2, debt2, 1, x) {
      LinksOfTop(fs, fs2, x, 0, k + 1);
    }
    StepInode(fs, debt, fs2, debt2, 1);
    Step(fs, debt, fs2, debt2, 1);
  }

  lemma LinksOfTop(fs: Fs, fs2: Fs, x: nat, n: nat, n2: nat)
    requires Shape(fs) && Shape(fs2) && fs.geo == fs2.geo && fs.inodes == fs2.inodes
    requires forall j: nat :: Counted(fs, n, j) == Counted(fs2, n2, j)
    ensures LinksOf(fs, n, x) == LinksOf(fs2, n2, x)
  {}

  /** An inode outside the count (just taken, or free) may be written at will. */
  lemma WriteUncounted(fs: Fs, debt: Debt, k: nat, ni: Inode)
    requires InvX(fs, debt) && k < |fs.inodes| && !Counted(fs, debt.newborn, k) && k >= 10
    ensures InvX(fs.(inodes := fs.inodes[k := ni]), debt)
  {
    hide TreeCnt, DirCnt, DirShape, Geo.Valid, Geo.IsMeta, KnownType, NoTree, Own, Refs, Clear, Total;
    var fs2 := fs.(inodes := fs.inodes[k := ni]);
    var n := debt.newborn;
    assert forall j: nat :: Counted(fs, n, j) == Counted(fs2, n, j);
    OthersAlike(fs, fs2, n, n, k);
    LinksOfOthers(fs, fs2, n, n, k);
    forall b: nat ensures BlocksMove(fs, debt, fs2, debt, k, b) {
      assert Alloc(fs, b) == Alloc(fs2, b);
    }
    forall x: nat | x > 0 ensures LinksMove(fs, debt, fs2, debt, k, x) {}
    forall j: nat | j < 10 ensures IAlloc(fs2, j) { assert IAlloc(fs, j); }
    Step(fs, debt, fs2, debt, k);
  }

  /** A file nothing names any more gives up its inode; its blocks become spare. */
  lemma DropInode(fs: Fs, debt: Debt, fs2: Fs, k: nat)
    requires InvX(fs, debt) && debt.newborn == 0 && debt.lone == k + 1 && debt.parent != k + 1 && k >= 10
    requires IBitSet(fs, fs2, k, false) && Counted(fs, 0, k) && !IsDir(fs.inodes[k])
    ensures InvX(fs2, debt.(spare := debt.spare + TreeSet(fs, k), lone := 0))
  {
    hide TreeCnt, DirCnt, DirShape, Geo.Valid, Geo.IsMeta, KnownType, NoTree, Own, Refs, Clear, Total, IAlloc;
    var debt2 := debt.(spare := debt.spare + TreeSet(fs, k), lone := 0);
    assert forall j: nat :: Counted(fs2, 0, j) == (Counted(fs, 0, j) && j != k);
    OthersAlike(fs, fs2, 0, 0, k);
    LinksOfOthers(fs, fs2, 0, 0, k);
    forall b: nat ensures BlocksMove(fs, debt, fs2, debt2, k, b) && (b in debt2.spare ==> Ours(fs, {}, b)) {
      TreeIsOurs(fs, debt, k, b);
      assert Alloc(fs, b) == Alloc(fs2, b);
    }
    assert InodeOK(fs, debt, k);
    forall x: nat | x > 0 ensures LinksMove(fs, debt, fs2, debt2, k, x) {}
    Step(fs, debt, fs2, debt2, k);
  }

  ghost predicate PlainInode(d: seq<Block>, ni: Inode, t: set<nat>) {
    && KnownType(ni) && !IsDir(ni) && ni.dtime == 0 && ni.links == 1
    && (IsReg(ni) ==> ni.block[14] == 0)
    && (forall b: nat :: TreeCnt(d, ni, b) == One(b in t))
  }

  /** A newly taken inode becomes a file whose tree uses up the spare blocks t; its entry is owed. */
  lemma PublishFile(fs: Fs, debt: Debt, k: nat, ni: Inode, t: set<nat>)
    requires InvX(fs, debt) && debt.newborn == k + 1 && debt.lone == 0 && debt.parent != k + 1 && k >= 10
    requires PlainInode(fs.blk, ni, t) && t <= debt.spare
    ensures k < |fs.inodes|
    ensures InvX(fs.(inodes := fs.inodes[k := ni]), debt.(spare := debt.spare - t, newborn := 0, lone := k + 1))
  {
    hide TreeCnt, DirCnt, DirShape, Geo.Valid, Geo.IsMeta, KnownType, NoTree, Own, Refs, Clear, Total, FileType;
    assert Used(fs, k);
    var fs2 := fs.(inodes := fs.inodes[k := ni]);
    var debt2 := debt.(spare := debt.spare - t, newborn := 0, lone := k + 1);
    assert forall j: nat :: Counted(fs2, 0, j) == (Counted(fs, k + 1, j) || j == k);
    OthersAlike(fs, fs2, k + 1, 0, k);
    LinksOfOthers(fs, fs2, k + 1, 0, k);
    forall b: nat ensures BlocksMove(fs, debt, fs2, debt2, k, b) {
      assert Alloc(fs, b) == Alloc(fs2, b);
    }
    forall x: nat | x > 0 ensures LinksMove(fs, debt, fs2, debt2, k, x) {}
    forall j: nat | j < 10 ensures IAlloc(fs2, j) { assert IAlloc(fs, j); }
    Step(fs, debt, fs2, debt2, k);
  }

  /** An existing file is pointed at other blocks: what it held becomes spare, t is used up. */
  lemma RetargetFile(fs: Fs, debt: Debt, k: nat, ni: Inode, t: set<nat>)
    requires InvX(fs, debt) && debt.newborn == 0 && k >= 10
    requires k < |fs.inodes| && Counted(fs, 0, k) && !IsDir(fs.inodes[k])
    requires PlainInode(fs.blk, ni, t) && t <= debt.spare + TreeSet(fs, k)
    ensures InvX(fs.(inodes := fs.inodes[k := ni]), debt.(spare := debt.spare + TreeSet(fs, k) - t))
  {
    hide TreeCnt, DirCnt, DirShape, Geo.Valid, Geo.IsMeta, KnownType, NoTree, Own, Refs, Clear, Total, FileType;
    var fs2 := fs.(inodes := fs.inodes[k := ni]);
    var debt2 := debt.(spare := debt.spare + TreeSet(fs, k) - t);
    assert InodeOK(fs, debt, k);
    assert forall j: nat :: Counted(fs2, 0, j) == Counted(fs, 0, j);
    OthersAlike(fs, fs2, 0, 0, k);
    LinksOfOthers(fs, fs2, 0, 0, k);
    forall b: nat ensures BlocksMove(fs, debt, fs2, debt2, k, b) && (b in debt2.spare ==> Ours(fs, {}, b)) {
      TreeIsOurs(fs, debt, k, b);
      assert Alloc(fs, b) == Alloc(fs2, b);
    }
    forall x: nat | x > 0 ensures LinksMove(fs, debt, fs2, debt2, k, x) {}
    forall j: nat | j < 10 ensures IAlloc(fs2, j) { assert IAlloc(fs, j); }
    Step(fs, debt, fs2, debt2, k);
  }

  // ---- directories ----

  /** A directory's tree is its direct blocks: contents do not matter, and a new slot adds its block. */
  lemma {:induction false} FlatTree(d: seq<Block>, d2: seq<Block>, i: Inode, b: nat, n: nat)
    requires n <= 15 && forall j | 12 <= j < 15 :: i.block[j] == 0
    ensures SlotsCnt(d, i, b, n) == SlotsCnt(d2, i, b, n)
  {
    if n > 0 {
      FlatTree(d, d2, i, b, n - 1);
    }
  }

  lemma {:induction false} GrownTree(d: seq<Block>, i: Inode, i2: Inode, j: nat, x: nat, b: nat, n: nat)
    requires n <= 15 && j < 12 && x != 0 && i.block[j] == 0 && i2.block == i.block[j := x]
    ensures SlotsCnt(d, i2, b, n) == SlotsCnt(d, i, b, n) + One(j < n && b == x)
  {
    if n > 0 {
      GrownTree(d, i, i2, j, x, b, n - 1);
    }
  }

  lemma {:induction false} TwoSlots(d: seq<Block>, i: Inode, j: nat, j2: nat, n: nat)
    requires j < j2 < n <= 15 && i.block[j] == i.block[j2] != 0
    ensures SlotsCnt(d, i, i.block[j], n) >= 2
  {
    if j2 == n - 1 {
      SlotCounts(d, i, i.block[j], j, n - 1);
    } else {
      TwoSlots(d, i, j, j2, n - 1);
    }
  }

  /** Slots of a directory in use name different blocks. */
  lemma SlotsDiffer(fs: Fs, debt: Debt, p: nat, j: nat)
    requires InvX(fs, debt) && p < |fs.inodes| && Counted(fs, debt.newborn, p) && IsDir(fs.inodes[p])
    requires j < 12 && fs.inodes[p].block[j] != 0
    ensures forall j2: nat | j2 < 15 && j2 != j :: fs.inodes[p].block[j2] != fs.inodes[p].block[j]
  {
    hide Inodes, LinksMatch, InodeCounts, BlockCounts, Ownership;
    var i := fs.inodes[p];
    TreeIsOurs(fs, debt, p, i.block[j]);
    forall j2: nat | j2 < 15 && j2 != j ensures i.block[j2] != i.block[j] {
      if i.block[j2] == i.block[j] {
        TwoSlots(fs.blk, i, if j < j2 then j else j2, if j < j2 then j2 else j, 15);
      }
    }
  }

  /** One block of a directory changes its answers by dlt: so do the answers of the directory. */
  lemma {:induction false} DirCntAt(d: seq<Block>, d2: seq<Block>, i: Inode, j: nat, q: Query, n: nat)
    requires n <= 12 && j < 12 && 0 < i.block[j] < |d| && SameBut(d, d2, {i.block[j]})
    requires forall j2 | 0 <= j2 < 12 && j2 != j :: i.block[j2] != i.block[j]
    ensures DirCnt(d2, i, q, n) + (if j < n then RecCnt(d[i.block[j]].recs, 0, q) else 0)
         == DirCnt(d, i, q, n) + (if j < n then RecCnt(d2[i.block[j]].recs, 0, q) else 0)
  {
    if n > 0 {
      DirCntAt(d, d2, i, j, q, n - 1);
    }
  }

  /** Rewriting block b of directory p leaves every other inode as it was, and p's tree too. */
  lemma DirBlockWritten(fs: Fs, debt: Debt, p: nat, j: nat, blk2: seq<Block>)
    requires InvX(fs, debt) && p < |fs.inodes| && Counted(fs, debt.newborn, p) && IsDir(fs.inodes[p])
    requires j < 12 && fs.inodes[p].block[j] != 0 && SameBut(fs.blk, blk2, {fs.inodes[p].block[j]})
    ensures AlikeBut(fs, debt.newborn, fs.(blk := blk2), debt.newborn, p)
    ensures forall b: nat :: TreeCnt(fs.blk, fs.inodes[p], b) == TreeCnt(blk2, fs.inodes[p], b)
  {
    hide Geo.Valid, Geo.IsMeta, DirCnt, NoTree, Ownership, LinksMatch, InodeCounts, BlockCounts;
    var fs2, i := fs.(blk := blk2), fs.inodes[p];
    var x := i.block[j];
    assert InodeOK(fs, debt, p);
    DirHasTree(i);
    SlotMet(fs.blk, i, j);
    forall k: nat | k < |fs.inodes| && k != p ensures Alike(fs, debt.newborn, fs2, debt.newborn, k) {
      if Counted(fs, debt.newborn, k) {
        TreesApart(fs, debt, p, k, x);
      }
      AlikeAfterWrite(fs, debt.newborn, blk2, {x}, k);
    }
    forall b: nat ensures TreeCnt(fs.blk, i, b) == TreeCnt(blk2, i, b) {
      FlatTree(fs.blk, blk2, i, b, 15);
    }
  }

  /** The j-th block of directory p now answers as if entry r had been added (or, the other way, removed). */
  ghost predicate EntryDelta(d: seq<Block>, d2: seq<Block>, b: nat, r: Rec) {
    && 0 < b < |d| && SameBut(d, d2, {b})
    && (forall q: Query :: RecCnt(d2[b].recs, 0, q) == RecCnt(d[b].recs, 0, q) + One(Hit(q, r)))
  }

  lemma AddEntry(fs: Fs, debt: Debt, p: nat, j: nat, blk2: seq<Block>, r: Rec)
    requires InvX(fs, debt) && p < |fs.inodes| && Counted(fs, debt.newborn, p) && IsDir(fs.inodes[p])
    requires j < 12 && EntryDelta(fs.blk, blk2, fs.inodes[p].block[j], r)
    requires Tiles(blk2[fs.inodes[p].block[j]].recs, 0)
    requires r.ino != 0 && r.ino == debt.lone && debt.grown == 0
    requires DirCnt(fs.blk, fs.inodes[p], ByName(r.name)) == 0
    ensures InvX(fs.(blk := blk2), debt.(lone := 0, grown := if r.ftype == 2 then p + 1 else 0))
  {
    hide Geo.Valid, Geo.IsMeta, NoTree, KnownType, Own, Refs, Clear, Total, TreeCnt, RecCnt, Tiles;
    var fs2, i := fs.(blk := blk2), fs.inodes[p];
    var debt2 := debt.(lone := 0, grown := if r.ftype == 2 then p + 1 else 0);
    DirBlockWritten(fs, debt, p, j, blk2);
    SlotsDiffer(fs, debt, p, j);
    forall q: Query ensures DirCnt(blk2, i, q) == DirCnt(fs.blk, i, q) + One(Hit(q, r)) {
      DirCntAt(fs.blk, blk2, i, j, q, 12);
    }
    DirEdited(fs, debt, fs2, debt2, p);
  }

  lemma RemoveEntry(fs: Fs, debt: Debt, p: nat, j: nat, blk2: seq<Block>, r: Rec)
    requires InvX(fs, debt) && p < |fs.inodes| && Counted(fs, debt.newborn, p) && IsDir(fs.inodes[p])
    requires j < 12 && fs.inodes[p].block[j] < |blk2| && EntryDelta(blk2, fs.blk, fs.inodes[p].block[j], r)
    requires Tiles(blk2[fs.inodes[p].block[j]].recs, 0)
    requires r.ino != 0 && r.ftype != 2 && debt.lone == 0
    ensures InvX(fs.(blk := blk2), debt.(lone := r.ino))
  {
    hide Geo.Valid, Geo.IsMeta, NoTree, KnownType, Own, Refs, Clear, Total, TreeCnt, RecCnt, Tiles;
    var fs2, i := fs.(blk := blk2), fs.inodes[p];
    var debt2 := debt.(lone := r.ino);
    DirBlockWritten(fs, debt, p, j, blk2);
    SlotsDiffer(fs, debt, p, j);
    forall q: Query ensures DirCnt(fs.blk, i, q) == DirCnt(blk2, i, q) + One(Hit(q, r)) {
      DirCntAt(blk2, fs.blk, i, j, q, 12);
    }
    DirEdited(fs, debt, fs2, debt2, p);
  }

  lemma DirEdited(fs: Fs, debt: Debt, fs2: Fs, debt2: Debt, p: nat)
    requires InvX(fs, debt) && p < |fs.inodes| && Counted(fs, debt.newborn, p) && IsDir(fs.inodes[p])
    requires Shape(fs2) && fs2 == fs.(blk := fs2.blk) && |fs2.blk| == |fs.blk|
    requires AlikeBut(fs, debt.newborn, fs2, debt.newborn, p)
    requires debt2 == debt.(lone := debt2.lone, grown := debt2.grown)
    requires debt.grown == debt2.grown || (debt.grown in {0, p + 1} && debt2.grown in {0, p + 1})
    requires forall b: nat :: TreeCnt(fs.blk, fs.inodes[p], b) == TreeCnt(fs2.blk, fs2.inodes[p], b)
    requires forall x: nat | x > 0 :: DirCnt(fs2.blk, fs.inodes[p], ByIno(x)) + One(x == debt2.lone)
                                   == DirCnt(fs.blk, fs.inodes[p], ByIno(x)) + One(x == debt.lone)
    requires InodeOK(fs2, debt2, p)
    ensures InvX(fs2, debt2)
  {
    hide Geo.Valid, Geo.IsMeta, NoTree, KnownType, Own, Refs, Clear, Total, TreeCnt, DirCnt, InodeOK, LinksOf;
    var n := debt.newborn;
    forall b: nat ensures BlocksMove(fs, debt, fs2, debt2, p, b) {
      assert Alloc(fs, b) == Alloc(fs2, b);
    }
    assert forall k: nat :: Counted(fs, n, k) == Counted(fs2, n, k);
    forall x: nat | x > 0 ensures LinksMove(fs, debt, fs2, debt2, p, x) {
      LinksOfTop(fs, fs2, x, n, n);
    }
    forall j: nat | j < 10 ensures IAlloc(fs2, j) { assert IAlloc(fs, j); }
    Step(fs, debt, fs2, debt2, p);
  }

  /** The new child is counted by its parent. */
  lemma BumpLinks(fs: Fs, debt: Debt, p: nat)
    requires InvX(fs, debt) && p < |fs.inodes| && Counted(fs, debt.newborn, p) && IsDir(fs.inodes[p])
    requires debt.parent == p + 1 && debt.grown == p + 1 && debt.lone != p + 1
    ensures InvX(fs.(inodes := fs.inodes[p := fs.inodes[p].(links := fs.inodes[p].links + 1)]),
                 debt.(parent := 0, grown := 0))
  {
    hide DirCounts;
    var i := fs.inodes[p];
    var i2: Inode := i.(links := i.links + 1);
    var fs2, debt2, n := fs.(inodes := fs.inodes[p := i2]), debt.(parent := 0, grown := 0), debt.newborn;
    KindByMode(i, i2);
    hide Geo.IsMeta, KnownType, Own, Refs, Clear, Total, TreeCnt, DirCnt, DirShape, BlocksMove, LinksMove, Used,
      IAlloc, Alloc, FileType;
    SameMarks(fs, fs2, p);
    hide Counted;
    SameBlocks(fs.blk, i, i2);
    BumpOK(fs, debt, fs2, debt2, p);
    OthersAlike(fs, fs2, n, n, p);
    forall b: nat ensures BlocksMove(fs, debt, fs2, debt2, p, b) { BumpBlocks(fs, debt, fs2, debt2, p, b); }
    forall x: nat | x > 0 ensures LinksMove(fs, debt, fs2, debt2, p, x) { BumpMoves(fs, debt, fs2, debt2, p, x); }
    hide InodeOK, Shape, LinksMatch, AlikeBut;
    Step(fs, debt, fs2, debt2, p);
  }

  lemma BumpBlocks(fs: Fs, debt: Debt, fs2: Fs, debt2: Debt, p: nat, b: nat)
    requires OneInode(fs, fs2, p) && debt2.spare == debt.spare && debt2.newborn == debt.newborn
    requires TreeCnt(fs.blk, fs2.inodes[p], b) == TreeCnt(fs.blk, fs.inodes[p], b)
    ensures Shape(fs2) && BlocksMove(fs, debt, fs2, debt2, p, b)
  {
    hide Shape, TreeCnt, Counted, Alloc, Geo.IsMeta;
    SameMarks(fs, fs2, p);
  }

  lemma BumpOK(fs: Fs, debt: Debt, fs2: Fs, debt2: Debt, p: nat)
    requires OneInode(fs, fs2, p) && InvX(fs, debt) && Counted(fs, debt.newborn, p) && IsDir(fs.inodes[p])
    requires fs2.inodes[p] == fs.inodes[p].(links := fs.inodes[p].links + 1)
    requires debt.grown == p + 1 && debt2.grown == 0
    ensures Shape(fs2) && InodeOK(fs2, debt2, p)
  {
    var i, i2 := fs.inodes[p], fs2.inodes[p];
    KindByMode(i, i2);
    SameBlocks(fs.blk, i, i2);
    hide DirCnt, DirShape, KnownType, TreeCnt, LinksMatch, Ownership, BlockCounts, InodeCounts, FileType;
    SameMarks(fs, fs2, p);
    hide Shape, Counted;
    assert InodeOK(fs, debt, p);
  }

  /** One link more pays the parent's debt. */
  lemma BumpMoves(fs: Fs, debt: Debt, fs2: Fs, debt2: Debt, p: nat, x: nat)
    requires OneInode(fs, fs2, p) && Counted(fs, debt.newborn, p) && x > 0
    requires IsDir(fs.inodes[p]) && IsDir(fs2.inodes[p]) && fs2.inodes[p].links == fs.inodes[p].links + 1
    requires DirCnt(fs.blk, fs2.inodes[p], ByIno(x)) == DirCnt(fs.blk, fs.inodes[p], ByIno(x))
    requires debt.parent == p + 1 && debt2.parent == 0 && debt2.lone == debt.lone && debt2.newborn == debt.newborn
    ensures Shape(fs2) && LinksMove(fs, debt, fs2, debt2, p, x)
  {
    hide DirCnt, IAlloc, FileType;
    SameMarks(fs, fs2, p);
    CountedSmall(fs);
  }

  lemma KindByMode(i: Inode, i2: Inode)
    requires i.mode == i2.mode
    ensures KnownType(i) == KnownType(i2) && IsDir(i) == IsDir(i2) && IsReg(i) == IsReg(i2)
  {}

  /** Trees and answers depend on the slots (and kind) only. */
  lemma SameBlocks(d: seq<Block>, i: Inode, i2: Inode)
    requires i.block == i2.block && i.mode == i2.mode && i.size == i2.size && i.blocks == i2.blocks
    ensures forall b: nat :: TreeCnt(d, i, b) == TreeCnt(d, i2, b)
    ensures forall q: Query :: DirCnt(d, i, q) == DirCnt(d, i2, q)
    ensures DirShape(d, i) ==> DirShape(d, i2)
  {
    forall b: nat ensures TreeCnt(d, i, b) == TreeCnt(d, i2, b) {
      SameSlots(d, i, i2, b, 15);
    }
    forall q: Query ensures DirCnt(d, i, q) == DirCnt(d, i2, q) {
      SameDir(d, i, i2, q, 12);
    }
  }

  lemma {:induction false} SameSlots(d: seq<Block>, i: Inode, i2: Inode, b: nat, n: nat)
    requires n <= 15 && i.block == i2.block
    ensures SlotsCnt(d, i, b, n) == SlotsCnt(d, i2, b, n)
  {
    if n > 0 { SameSlots(d, i, i2, b, n - 1); }
  }

  lemma {:induction false} SameDir(d: seq<Block>, i: Inode, i2: Inode, q: Query, n: nat)
    requires n <= 12 && forall j | 0 <= j < n :: i.block[j] == i2.block[j]
    ensures DirCnt(d, i, q, n) == DirCnt(d, i2, q, n)
  {
    if n > 0 { SameDir(d, i, i2, q, n - 1); }
  }

  lemma {:induction false} GrownDir(d: seq<Block>, i: Inode, i2: Inode, j: nat, x: nat, q: Query, n: nat)
    requires n <= 12 && j < 12 && 0 < x < |d| && i.block[j] == 0 && i2.block == i.block[j := x]
    ensures DirCnt(d, i2, q, n) == DirCnt(d, i, q, n) + (if j < n then RecCnt(d[x].recs, 0, q) else 0)
  {
    if n > 0 {
      GrownDir(d, i, i2, j, x, q, n - 1);
    }
  }

  /** The directory's next slot takes a spare block holding just entry r. */
  lemma GrowDir(fs: Fs, debt: Debt, p: nat, b: nat, blk2: seq<Block>, i2: Inode, r: Rec)
    requires InvX(fs, debt) && p < |fs.inodes| && Counted(fs, debt.newborn, p) && IsDir(fs.inodes[p])
    requires b in debt.spare && 0 < b && SameBut(fs.blk, blk2, {b}) && Tiles(blk2[b].recs, 0)
    requires forall q: Query :: RecCnt(blk2[b].recs, 0, q) == One(Hit(q, r))
    requires fs.inodes[p].size / BS < 12
    requires i2 == fs.inodes[p].(block := fs.inodes[p].block[fs.inodes[p].size / BS := b],
                                 size := fs.inodes[p].size + BS, blocks := fs.inodes[p].blocks + BS / 512)
    requires r.ino != 0 && r.ino == debt.lone && debt.grown == 0
    requires DirCnt(fs.blk, fs.inodes[p], ByName(r.name)) == 0
    ensures InvX(fs.(blk := blk2, inodes := fs.inodes[p := i2]),
                 debt.(spare := debt.spare - {b}, lone := 0, grown := if r.ftype == 2 then p + 1 else 0))
  {
    hide Geo.Valid, Geo.IsMeta, KnownType, Own, Refs, Clear, Total, SlotsCnt, RecCnt, Tiles, Ownership;
    var fs1, i := fs.(blk := blk2), fs.inodes[p];
    var nb := i.size / BS;
    assert InodeOK(fs, debt, p);
    assert i.block[nb] == 0 && b < |fs.blk| by { SpareInRange(fs, debt, b); }
    WriteSpare(fs, debt, blk2, {b});
    DirHasTree(i);
    DirFrame(fs.blk, blk2, {b}, i);
    assert InodeOK(fs1, debt, p);
    KindByMode(i, i2);
    forall q: Query ensures DirCnt(blk2, i2, q) == DirCnt(blk2, i, q) + One(Hit(q, r)) {
      GrownDir(blk2, i, i2, nb, b, q, 12);
    }
    forall x: nat ensures TreeCnt(blk2, i2, x) == TreeCnt(blk2, i, x) + One(x == b) {
      GrownTree(blk2, i, i2, nb, b, x, 15);
    }
    SlotGained(fs1, debt, p, i2, b, r);
  }

  lemma SpareInRange(fs: Fs, debt: Debt, b: nat)
    requires InvX(fs, debt) && b in debt.spare
    ensures b < fs.geo.blocks <= |fs.blk|
  {}

  /** Only the p-th inode differs, and not in its mark. */
  ghost predicate OneInode(fs: Fs, fs2: Fs, p: nat) {
    Shape(fs) && p < |fs.inodes| && fs2 == fs.(inodes := fs2.inodes) && |fs2.inodes| == |fs.inodes| &&
    forall j: nat | j < |fs.inodes| && j != p :: fs2.inodes[j] == fs.inodes[j]
  }

  lemma SameMarks(fs: Fs, fs2: Fs, p: nat)
    requires OneInode(fs, fs2, p)
    ensures Shape(fs2)
    ensures forall n: nat, k: nat :: Counted(fs, n, k) == Counted(fs2, n, k)
    ensures forall k: nat :: IAlloc(fs, k) == IAlloc(fs2, k) && Alloc(fs, k) == Alloc(fs2, k) && Used(fs, k) == Used(fs2, k)
  {
    hide Geo.Valid;
  }

  /** The new block passes from the spares to the directory. */
  lemma SlotBlocks(fs: Fs, debt: Debt, fs2: Fs, debt2: Debt, p: nat, b: nat, x: nat)
    requires OneInode(fs, fs2, p) && InvX(fs, debt) && Counted(fs, debt.newborn, p) && b in debt.spare
    requires TreeCnt(fs.blk, fs2.inodes[p], x) == TreeCnt(fs.blk, fs.inodes[p], x) + One(x == b)
    requires debt2.spare == debt.spare - {b} && debt2.newborn == debt.newborn
    ensures Shape(fs2) && BlocksMove(fs, debt, fs2, debt2, p, x)
  {
    hide Shape, TreeCnt, Counted, Alloc, Geo.IsMeta, BlockCounts, InodeCounts, Inodes, LinksMatch, Own, IAlloc;
    SameMarks(fs, fs2, p);
    TreeIsOurs(fs, debt, p, x);
  }

  /** The entry gained pays for the lone inode. */
  lemma SlotLinks(fs: Fs, debt: Debt, fs2: Fs, debt2: Debt, p: nat, r: Rec, x: nat)
    requires OneInode(fs, fs2, p) && Counted(fs, debt.newborn, p) && IsDir(fs.inodes[p]) && IsDir(fs2.inodes[p])
    requires fs2.inodes[p].links == fs.inodes[p].links && r.ino != 0 && r.ino == debt.lone && x > 0
    requires DirCnt(fs.blk, fs2.inodes[p], ByIno(x)) == DirCnt(fs.blk, fs.inodes[p], ByIno(x)) + One(Hit(ByIno(x), r))
    requires debt2.lone == 0 && debt2.parent == debt.parent && debt2.newborn == debt.newborn
    ensures Shape(fs2) && LinksMove(fs, debt, fs2, debt2, p, x)
  {
    hide DirCnt, Counted, IAlloc, FileType;
    SameMarks(fs, fs2, p);
    hide Shape;
    SameLinks(fs, fs2, p, debt.newborn);
  }

  lemma SameLinks(fs: Fs, fs2: Fs, p: nat, n: nat)
    requires OneInode(fs, fs2, p) && fs2.inodes[p].links == fs.inodes[p].links
    ensures Shape(fs2) && forall x: nat :: LinksOf(fs, n, x) == LinksOf(fs2, n, x)
  {
    SameMarks(fs, fs2, p);
    CountedSmall(fs);
  }

  lemma CountedSmall(fs: Fs)
    requires Shape(fs)
    ensures forall n: nat, k: nat :: Counted(fs, n, k) ==> k < |fs.inodes|
  {}

  lemma SlotGained(fs: Fs, debt: Debt, p: nat, i2: Inode, b: nat, r: Rec)
    requires InvX(fs, debt) && p < |fs.inodes| && Counted(fs, debt.newborn, p)
    requires IsDir(fs.inodes[p]) && IsDir(i2) && KnownType(i2) && DirShape(fs.blk, i2)
    requires i2.links == fs.inodes[p].links && i2.dtime == 0
    requires b in debt.spare && r.ino != 0 && r.ino == debt.lone && debt.grown == 0
    requires forall q: Query :: DirCnt(fs.blk, i2, q) == DirCnt(fs.blk, fs.inodes[p], q) + One(Hit(q, r))
    requires forall x: nat :: TreeCnt(fs.blk, i2, x) == TreeCnt(fs.blk, fs.inodes[p], x) + One(x == b)
    requires DirCnt(fs.blk, fs.inodes[p], ByName(r.name)) == 0
    ensures InvX(fs.(inodes := fs.inodes[p := i2]),
                 debt.(spare := debt.spare - {b}, lone := 0, grown := if r.ftype == 2 then p + 1 else 0))
  {
    hide Geo.IsMeta, KnownType, Own, Refs, Clear, Total, TreeCnt, DirCnt, DirShape, BlocksMove, LinksMove, Counted, Used,
      IAlloc, Alloc;
    var fs2, n := fs.(inodes := fs.inodes[p := i2]), debt.newborn;
    var debt2 := debt.(spare := debt.spare - {b}, lone := 0, grown := if r.ftype == 2 then p + 1 else 0);
    SameMarks(fs, fs2, p);
    SlotOK(fs, debt, fs2, debt2, p, r);
    OthersAlike(fs, fs2, n, n, p);
    forall x: nat ensures BlocksMove(fs, debt, fs2, debt2, p, x) { SlotBlocks(fs, debt, fs2, debt2, p, b, x); }
    forall x: nat | x > 0 ensures LinksMove(fs, debt, fs2, debt2, p, x) { SlotLinks(fs, debt, fs2, debt2, p, r, x); }
    hide InodeOK, Shape, LinksMatch, AlikeBut;
    Step(fs, debt, fs2, debt2, p);
  }

  lemma SlotOK(fs: Fs, debt: Debt, fs2: Fs, debt2: Debt, p: nat, r: Rec)
    requires OneInode(fs, fs2, p) && InvX(fs, debt) && Counted(fs, debt.newborn, p)
    requires IsDir(fs.inodes[p]) && IsDir(fs2.inodes[p]) && KnownType(fs2.inodes[p]) && DirShape(fs.blk, fs2.inodes[p])
    requires fs2.inodes[p].links == fs.inodes[p].links && fs2.inodes[p].dtime == 0
    requires forall q: Query :: DirCnt(fs.blk, fs2.inodes[p], q) == DirCnt(fs.blk, fs.inodes[p], q) + One(Hit(q, r))
    requires DirCnt(fs.blk, fs.inodes[p], ByName(r.name)) == 0
    requires r.ino != 0 && debt.grown == 0 && debt2.grown == if r.ftype == 2 then p + 1 else 0
    ensures Shape(fs2) && InodeOK(fs2, debt2, p)
  {
    hide DirCnt, DirShape, KnownType, TreeCnt, LinksMatch, Ownership, BlockCounts, InodeCounts;
    SameMarks(fs, fs2, p);
    hide Shape, Counted;
    assert InodeOK(fs, debt, p);
  }

  /** What mkdir writes into a new directory's block. */
  ghost predicate DotBlock(recs: seq<Rec>, self: nat, up: nat)
    requires |recs| == BS
  {
    recs[0] == Rec(self, 12, 2, ".") && recs[12] == Rec(up, BS - 12, 2, "..")
  }

  lemma DotCounts(recs: seq<Rec>, self: nat, up: nat, q: Query)
    requires |recs| == BS && DotBlock(recs, self, up)
    ensures RecCnt(recs, 0, q) == One(Hit(q, Rec(self, 12, 2, "."))) + One(Hit(q, Rec(up, BS - 12, 2, "..")))
    ensures Tiles(recs, 0)
  {
    assert RecCnt(recs, BS, q) == 0;
    assert RecCnt(recs, 12, q) == One(Hit(q, Rec(up, BS - 12, 2, "..")));
    assert Tiles(recs, BS) && Tiles(recs, 12);
  }

  lemma {:induction false} OneBlockDir(d: seq<Block>, i: Inode, b: nat, q: Query, n: nat)
    requires n <= 12 && 0 < b < |d| && i.block == NO_BLOCKS[0 := b]
    ensures DirCnt(d, i, q, n) == if n == 0 then 0 else RecCnt(d[b].recs, 0, q)
  {
    if n > 0 { OneBlockDir(d, i, b, q, n - 1); }
  }

  lemma {:induction false} EmptySlots(d: seq<Block>, i: Inode, x: nat, n: nat)
    requires n <= 15 && i.block == NO_BLOCKS
    ensures SlotsCnt(d, i, x, n) == 0
  {
    if n > 0 { EmptySlots(d, i, x, n - 1); }
  }

  ghost predicate NewDir(d: seq<Block>, ni: Inode, b: nat, k: nat, up: nat) {
    && IsDir(ni) && ni.dtime == 0 && ni.links == 2 && ni.size == BS && ni.blocks == BS / 512
    && 0 < b < |d| && ni.block == NO_BLOCKS[0 := b] && DotBlock(d[b].recs, k + 1, up)
  }

  lemma NewDirFacts(d: seq<Block>, ni: Inode, b: nat, k: nat, up: nat)
    requires NewDir(d, ni, b, k, up) && up > 0
    ensures DirShape(d, ni) && KnownType(ni)
    ensures forall x: nat :: TreeCnt(d, ni, x) == One(x == b)
    ensures forall x: nat | x > 0 :: DirCnt(d, ni, ByIno(x)) == One(x == k + 1) + One(x == up)
    ensures DirCnt(d, ni, SubDirs) == 2
    ensures forall nm: string :: DirCnt(d, ni, ByName(nm)) <= 1
  {
    forall q: Query ensures DirCnt(d, ni, q)
        == One(Hit(q, Rec(k + 1, 12, 2, "."))) + One(Hit(q, Rec(up, BS - 12, 2, ".."))) {
      DotCounts(d[b].recs, k + 1, up, q);
      OneBlockDir(d, ni, b, q, 12);
    }
    DotCounts(d[b].recs, k + 1, up, Live);
    DirHasTree(ni);
    forall x: nat ensures TreeCnt(d, ni, x) == One(x == b) {
      var none: Inode := ni.(block := NO_BLOCKS);
      EmptySlots(d, none, x, 15);
      GrownTree(d, none, ni, 0, b, x, 15);
    }
  }

  /** A newly taken inode becomes a directory; its own entry and its parent's count are owed. */
  lemma PublishDir(fs: Fs, debt: Debt, k: nat, ni: Inode, b: nat, p: nat)
    requires InvX(fs, debt) && debt.newborn == k + 1 && debt.lone == 0 && debt.parent == 0 && debt.grown == 0
    requires debt.uncounted == 0 && k >= 10 && k != p && b in debt.spare && NewDir(fs.blk, ni, b, k, p + 1)
    ensures k < |fs.inodes|
    ensures InvX(fs.(inodes := fs.inodes[k := ni]),
                 debt.(spare := debt.spare - {b}, newborn := 0, lone := k + 1, parent := p + 1, uncounted := k + 1))
  {
    hide DirCnt, DirShape, TreeCnt, Geo.Valid, Geo.IsMeta, KnownType, NoTree, Own, Refs, Clear, Total, FileType, IsDir;
    hide DotBlock;
    NewDirFacts(fs.blk, ni, b, k, p + 1);
    assert Used(fs, k);
    var fs2 := fs.(inodes := fs.inodes[k := ni]);
    var debt2 := debt.(spare := debt.spare - {b}, newborn := 0, lone := k + 1, parent := p + 1, uncounted := k + 1);
    assert forall j: nat :: Counted(fs2, 0, j) == (Counted(fs, k + 1, j) || j == k);
    OthersAlike(fs, fs2, k + 1, 0, k);
    LinksOfOthers(fs, fs2, k + 1, 0, k);
    forall x: nat ensures BlocksMove(fs, debt, fs2, debt2, k, x) {
      assert Alloc(fs, x) == Alloc(fs2, x);
    }
    forall x: nat | x > 0 ensures LinksMove(fs, debt, fs2, debt2, k, x) {}
    forall j: nat | j < 10 ensures IAlloc(fs2, j) { assert IAlloc(fs, j); }
    Step(fs, debt, fs2, debt2, k);
  }
}
