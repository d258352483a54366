/** How each elementary change of a volume moves the invariant and its debt. */
module Ext2Steps {
  import opened Sums
  import opened Ext2Layout
  import opened Ext2State
  import opened Ext2Frames

  // ---- the general step: one inode changes, all others read as before ----

  ghost function TreeOf(fs: Fs, newborn: nat, k: nat, b: nat): nat
    requires Shape(fs)
  {
    if Counted(fs, newborn, k) then TreeCnt(fs.blk, fs.inodes[k], b) else 0
  }

  ghost function RefsOf(fs: Fs, newborn: nat, k: nat, q: Query): nat
    requires Shape(fs)
  {
    if Counted(fs, newborn, k) && IsDir(fs.inodes[k]) then DirCnt(fs.blk, fs.inodes[k], q) else 0
  }

  ghost predicate Alike(fs: Fs, n: nat, fs2: Fs, n2: nat, k: nat)
    requires Shape(fs) && Shape(fs2) && fs.geo == fs2.geo
  {
    && Counted(fs, n, k) == Counted(fs2, n2, k)
    && (Counted(fs, n, k) ==>
          && fs.inodes[k] == fs2.inodes[k]
          && (forall b: nat :: TreeCnt(fs.blk, fs.inodes[k], b) == TreeCnt(fs2.blk, fs2.inodes[k], b))
          && (IsDir(fs.inodes[k]) ==>
                && (forall q: Query :: DirCnt(fs.blk, fs.inodes[k], q) == DirCnt(fs2.blk, fs2.inodes[k], q))
                && (DirShape(fs.blk, fs.inodes[k]) ==> DirShape(fs2.blk, fs2.inodes[k]))))
  }

  /** All inodes but the p-th read as before. */
  ghost predicate AlikeBut(fs: Fs, n: nat, fs2: Fs, n2: nat, p: nat) {
    && Shape(fs) && Shape(fs2) && fs.geo == fs2.geo
    && forall k: nat | k < |fs.inodes| && k != p :: Alike(fs, n, fs2, n2, k)
  }

  lemma OwnBalance(fs: Fs, n: nat, fs2: Fs, n2: nat, p: nat, b: nat)
    requires AlikeBut(fs, n, fs2, n2, p) && p < |fs.inodes|
    ensures Own(fs, n, b) + TreeOf(fs2, n2, p, b) == Own(fs2, n2, b) + TreeOf(fs, n, p, b)
  {
    var f, f2 := OwnTerm(fs, n, b), OwnTerm(fs2, n2, b);
    forall k: nat | k < |fs.inodes| && k != p ensures f(k) == f2(k) {
      assert Alike(fs, n, fs2, n2, k);
    }
    SumUpdate(|fs.inodes|, f, f2, p);
  }

  lemma RefBalance(fs: Fs, n: nat, fs2: Fs, n2: nat, p: nat, q: Query)
    requires AlikeBut(fs, n, fs2, n2, p) && p < |fs.inodes|
    ensures Refs(fs, n, q) + RefsOf(fs2, n2, p, q) == Refs(fs2, n2, q) + RefsOf(fs, n, p, q)
  {
    var f, f2 := RefTerm(fs, n, q), RefTerm(fs2, n2, q);
    forall k: nat | k < |fs.inodes| && k != p ensures f(k) == f2(k) {
      assert Alike(fs, n, fs2, n2, k);
    }
    SumUpdate(|fs.inodes|, f, f2, p);
  }

  ghost function One(c: bool): nat { if c then 1 else 0 }

  /** Links and references of x move together when only inode p changes. */
  ghost predicate LinksMove(fs: Fs, debt: Debt, fs2: Fs, debt2: Debt, p: nat, x: nat)
    requires Shape(fs) && Shape(fs2)
  {
    RefsOf(fs2, debt2.newborn, p, ByIno(x)) + One(x == debt2.lone)
      + LinksOf(fs, debt.newborn, x) + One(x == debt.parent)
    == RefsOf(fs, debt.newborn, p, ByIno(x)) + One(x == debt.lone)
      + LinksOf(fs2, debt2.newborn, x) + One(x == debt2.parent)
  }

  ghost predicate BlocksMove(fs: Fs, debt: Debt, fs2: Fs, debt2: Debt, p: nat, b: nat)
    requires Shape(fs) && Shape(fs2)
  {
    TreeOf(fs2, debt2.newborn, p, b) + One(Ours(fs, debt.spare, b))
    == TreeOf(fs, debt.newborn, p, b) + One(Ours(fs2, debt2.spare, b))
  }

  lemma StepOwnership(fs: Fs, debt: Debt, fs2: Fs, debt2: Debt, p: nat)
    requires Shape(fs) && Ownership(fs, debt.spare, debt.newborn)
    requires AlikeBut(fs, debt.newborn, fs2, debt2.newborn, p) && p < |fs.inodes|
    requires forall b: nat :: BlocksMove(fs, debt, fs2, debt2, p, b)
    ensures forall b: nat :: Own(fs2, debt2.newborn, b) == if Ours(fs2, debt2.spare, b) then 1 else 0
  {
    hide Shape, Own, TreeOf, Ours, Alike;
    forall b: nat ensures Own(fs2, debt2.newborn, b) == if Ours(fs2, debt2.spare, b) then 1 else 0 {
      OwnBalance(fs, debt.newborn, fs2, debt2.newborn, p, b);
      assert BlocksMove(fs, debt, fs2, debt2, p, b);
    }
  }

  lemma StepLinks(fs: Fs, debt: Debt, fs2: Fs, debt2: Debt, p: nat)
    requires Shape(fs) && LinksMatch(fs, debt)
    requires AlikeBut(fs, debt.newborn, fs2, debt2.newborn, p) && p < |fs.inodes|
    requires forall x: nat | x > 0 :: LinksMove(fs, debt, fs2, debt2, p, x)
    ensures LinksMatch(fs2, debt2)
  {
    hide Shape, Refs, RefsOf, LinksOf, Alike;
    forall x: nat | x > 0
      ensures Refs(fs2, debt2.newborn, ByIno(x)) + (if x == debt2.lone then 1 else 0)
           == LinksOf(fs2, debt2.newborn, x) + (if x == debt2.parent then 1 else 0)
    {
      RefBalance(fs, debt.newborn, fs2, debt2.newborn, p, ByIno(x));
      assert LinksMove(fs, debt, fs2, debt2, p, x);
    }
  }

  /** Inode p stays a directory or not; or it becomes one that its group is still to count; or a group counts the
      one that it had still to count. */
  ghost predicate DirsMove(fs: Fs, debt: Debt, fs2: Fs, debt2: Debt, p: nat)
    requires Shape(fs) && Shape(fs2)
  {
    var was, now := CountsAsDir(fs, debt.newborn, p), CountsAsDir(fs2, debt2.newborn, p);
    if debt2.uncounted == debt.uncounted then now == was && fs2.usedD == fs.usedD
    else if debt2.uncounted == 0 then now == was && fs2.usedD == DirCounted(fs, debt.uncounted)
    else !was && now && debt.uncounted == 0 && debt2.uncounted == p + 1 && fs2.usedD == fs.usedD
  }

  /** The counts with one more directory in the group of inode ino. */
  function DirCounted(fs: Fs, ino: nat): seq<nat>
    requires ino > 0
  {
    var g := (ino - 1) / IPG;
    if g < |fs.usedD| then fs.usedD[g := fs.usedD[g] + 1] else fs.usedD
  }

  lemma StepDirs(fs: Fs, debt: Debt, fs2: Fs, debt2: Debt, p: nat)
    requires Shape(fs) && DirCounts(fs, debt)
    requires AlikeBut(fs, debt.newborn, fs2, debt2.newborn, p) && p < |fs.inodes|
    requires DirsMove(fs, debt, fs2, debt2, p)
    ensures DirCounts(fs2, debt2)
  {
    hide GroupDirs;
    forall g: nat | g < fs2.geo.groups
      ensures fs2.usedD[g] + (if Uncounted(debt2, g) then 1 else 0) == GroupDirs(fs2, debt2.newborn, g)
    {
      DirBalance(fs, debt.newborn, fs2, debt2.newborn, p, g);
    }
  }

  lemma DirBalance(fs: Fs, n: nat, fs2: Fs, n2: nat, p: nat, g: nat)
    requires AlikeBut(fs, n, fs2, n2, p) && p < |fs.inodes| && g < fs.geo.groups
    ensures Shape(fs) && Shape(fs2)
    ensures GroupDirs(fs, n, g) + One(p / IPG == g && CountsAsDir(fs2, n2, p))
      == GroupDirs(fs2, n2, g) + One(p / IPG == g && CountsAsDir(fs, n, p))
  {
    hide GroupDirs, CountsAsDir, AlikeBut;
    assert Shape(fs) && Shape(fs2) by { ShapesOf(fs, n, fs2, n2, p); }
    hide Shape;
    if p / IPG == g { InGroup(fs, n, fs2, n2, p, g, p % IPG); } else { OutsideGroup(fs, n, fs2, n2, p, g); }
  }

  lemma InGroup(fs: Fs, n: nat, fs2: Fs, n2: nat, p: nat, g: nat, r: nat)
    requires AlikeBut(fs, n, fs2, n2, p) && p < |fs.inodes| && g < fs.geo.groups && r < IPG && p == g * IPG + r
    ensures Shape(fs) && Shape(fs2)
    ensures GroupDirs(fs, n, g) + One(CountsAsDir(fs2, n2, p)) == GroupDirs(fs2, n2, g) + One(CountsAsDir(fs, n, p))
  {
    ShapesOf(fs, n, fs2, n2, p);
    hide Sum, CountsAsDir, AlikeBut, Shape, DirTerm;
    var f, f2 := DirTerm(fs, n, g), DirTerm(fs2, n2, g);
    TermAt(fs, n, g, r, p);
    TermAt(fs2, n2, g, r, p);
    forall k: nat | k < IPG && k != r ensures f(k) == f2(k) { SameTerm(fs, n, fs2, n2, p, g, k); }
    SumUpdate(IPG, f, f2, r);
  }

  lemma SameTerm(fs: Fs, n: nat, fs2: Fs, n2: nat, p: nat, g: nat, k: nat)
    requires AlikeBut(fs, n, fs2, n2, p) && g < fs.geo.groups && k < IPG && g * IPG + k != p
    ensures Shape(fs) && Shape(fs2) && DirTerm(fs, n, g)(k) == DirTerm(fs2, n2, g)(k)
  {
    GroupSpan(fs, fs2, g);
    SameKind(fs, n, fs2, n2, p, g * IPG + k);
  }

  lemma TermAt(fs: Fs, n: nat, g: nat, k: nat, p: nat)
    requires Shape(fs) && p == g * IPG + k
    ensures DirTerm(fs, n, g)(k) == One(CountsAsDir(fs, n, p))
  {}

  lemma OutsideGroup(fs: Fs, n: nat, fs2: Fs, n2: nat, p: nat, g: nat)
    requires AlikeBut(fs, n, fs2, n2, p) && g < fs.geo.groups && p / IPG != g
    ensures Shape(fs) && Shape(fs2) && GroupDirs(fs, n, g) == GroupDirs(fs2, n2, g)
  {
    GroupSpan(fs, fs2, g);
    hide Sum, CountsAsDir, AlikeBut, Shape;
    var f, f2 := DirTerm(fs, n, g), DirTerm(fs2, n2, g);
    forall k: nat | k < IPG ensures f(k) == f2(k) { SameTerm(fs, n, fs2, n2, p, g, k); }
    SumEqual(IPG, f, f2);
  }

  lemma ShapesOf(fs: Fs, n: nat, fs2: Fs, n2: nat, p: nat)
    requires AlikeBut(fs, n, fs2, n2, p)
    ensures Shape(fs) && Shape(fs2) && fs.geo == fs2.geo
  {}

  lemma GroupSpan(fs: Fs, fs2: Fs, g: nat)
    requires Shape(fs) && Shape(fs2) && fs.geo == fs2.geo && g < fs.geo.groups
    ensures g * IPG + IPG <= |fs.inodes| == |fs2.inodes|
  {}

  lemma SameKind(fs: Fs, n: nat, fs2: Fs, n2: nat, p: nat, k: nat)
    requires AlikeBut(fs, n, fs2, n2, p) && k < |fs.inodes| && k != p
    ensures CountsAsDir(fs, n, k) == CountsAsDir(fs2, n2, k)
  {
    hide DirCnt, TreeCnt, DirShape, Counted, FileType;
    assert Alike(fs, n, fs2, n2, k);
  }

  lemma StepInode(fs: Fs, debt: Debt, fs2: Fs, debt2: Debt, k: nat)
    requires Shape(fs) && Shape(fs2) && fs.geo == fs2.geo && k < |fs.inodes|
    requires Alike(fs, debt.newborn, fs2, debt2.newborn, k)
    requires Counted(fs, debt.newborn, k) && InodeOK(fs, debt, k)
    requires debt.grown == debt2.grown || (debt.grown != k + 1 && debt2.grown != k + 1)
    ensures InodeOK(fs2, debt2, k)
  {
    hide Counted, Shape, DirShape, DirCnt;
  }

  /** If only inode p changes and its own blocks and links balance, the invariant moves with the debt. */
  lemma Step(fs: Fs, debt: Debt, fs2: Fs, debt2: Debt, p: nat)
    requires InvX(fs, debt)
    requires AlikeBut(fs, debt.newborn, fs2, debt2.newborn, p) && p < |fs.inodes|
    requires BlockCounts(fs2) && InodeCounts(fs2) && DirsMove(fs, debt, fs2, debt2, p)
    requires forall b: nat :: BlocksMove(fs, debt, fs2, debt2, p, b)
    requires forall b: nat | b < fs.geo.blocks && fs.geo.IsMeta(b) :: Alloc(fs2, b)
    requires forall b | b in debt2.spare :: Alloc(fs2, b) && !fs.geo.IsMeta(b)
    requires forall x: nat | x > 0 :: LinksMove(fs, debt, fs2, debt2, p, x)
    requires Counted(fs2, debt2.newborn, p) ==> InodeOK(fs2, debt2, p)
    requires debt.grown == debt2.grown || (debt.grown in {0, p + 1} && debt2.grown in {0, p + 1})
    requires forall k: nat | k < 10 :: IAlloc(fs2, k)
    requires IsDir(fs2.inodes[1]) && Used(fs2, 1)
    requires debt2.newborn != 0 ==> Used(fs2, debt2.newborn - 1)
    ensures InvX(fs2, debt2)
  {
    hide Own, Refs, LinksOf, Ours, TreeOf, RefsOf, InodeOK, BlocksMove, LinksMove, LinksMatch, Alloc, Used, IAlloc, BlockCounts,
         InodeCounts, DirCounts, DirsMove;
    StepOwnership(fs, debt, fs2, debt2, p);
    StepLinks(fs, debt, fs2, debt2, p);
    StepDirs(fs, debt, fs2, debt2, p);
    forall k: nat | k < |fs2.inodes| && Counted(fs2, debt2.newborn, k) ensures InodeOK(fs2, debt2, k) {
      if k != p {
        assert Alike(fs, debt.newborn, fs2, debt2.newborn, k);
        StepInode(fs, debt, fs2, debt2, k);
      }
    }
  }

  // ---- block bitmap ----

  /** fs2 is fs with exactly the bits of the blocks in t set to v, the counters following. */
  ghost predicate BitsSet(fs: Fs, fs2: Fs, t: set<nat>, v: bool) {
    && Shape(fs) && Shape(fs2)
    && fs2 == fs.(bits := fs2.bits, freeB := fs2.freeB, totB := fs2.totB)
    && BlockCounts(fs2)
    && (forall b | b in t :: b < fs.geo.blocks)
    && (forall g, l | 0 <= g < fs.geo.groups && 0 <= l < BPG ::
          fs2.bits[g][l] == if g * BPG + l in t then v else fs.bits[g][l])
  }

  lemma AllocAfter(fs: Fs, fs2: Fs, t: set<nat>, v: bool)
    requires BitsSet(fs, fs2, t, v)
    ensures forall b: nat :: Alloc(fs2, b) == if b in t then v else Alloc(fs, b)
  {
    hide BlockCounts;
    forall b: nat ensures Alloc(fs2, b) == if b in t then v else Alloc(fs, b) {
      if b < fs.geo.blocks {
        var g, l := b / BPG, b % BPG;
        assert g * BPG + l == b;
      }
    }
  }

  /** Contents and inodes untouched: whatever was counted reads as before. */
  lemma UntouchedAlike(fs: Fs, n: nat, fs2: Fs, n2: nat, p: nat := |fs.inodes|)
    requires Shape(fs) && Shape(fs2) && fs.geo == fs2.geo && fs.inodes == fs2.inodes && fs.blk == fs2.blk
    requires forall k: nat | k < |fs.inodes| && k != p :: Counted(fs, n, k) == Counted(fs2, n2, k)
    ensures AlikeBut(fs, n, fs2, n2, p)
  {
    hide TreeCnt, DirCnt, DirShape, Counted, Geo.Valid;
  }

  /** No inode changes: only the spare blocks may move. */
  lemma QuietStep(fs: Fs, debt: Debt, fs2: Fs, spare: set<nat>)
    requires InvX(fs, debt)
    requires Shape(fs2) && fs2 == fs.(bits := fs2.bits, freeB := fs2.freeB, totB := fs2.totB, blk := fs2.blk)
    requires BlockCounts(fs2)
    requires forall k: nat | k < |fs.inodes| :: Alike(fs, debt.newborn, fs2, debt.newborn, k)
    requires forall b: nat :: Ours(fs2, spare, b) == Ours(fs, debt.spare, b)
    requires forall b: nat | b < fs.geo.blocks && fs.geo.IsMeta(b) :: Alloc(fs2, b)
    requires forall b | b in spare :: Alloc(fs2, b) && !fs.geo.IsMeta(b)
    ensures InvX(fs2, debt.(spare := spare))
  {
    hide TreeCnt, DirCnt, DirShape, Geo.Valid, Geo.IsMeta, LinksOf, Ours, KnownType, NoTree, Own, Refs, Clear, Total;
    var debt2 := debt.(spare := spare);
    assert Alike(fs, debt.newborn, fs2, debt2.newborn, 1);
    forall b: nat ensures BlocksMove(fs, debt, fs2, debt2, 1, b) {}
    forall x: nat | x > 0 ensures LinksMove(fs, debt, fs2, debt2, 1, x) {
      LinksOfSame(fs, fs2, debt.newborn, x);
    }
    if Counted(fs2, debt.newborn, 1) { StepInode(fs, debt, fs2, debt2, 1); }
    forall k: nat | k < 10 ensures IAlloc(fs2, k) { assert IAlloc(fs, k); }
    Step(fs, debt, fs2, debt2, 1);
  }

  lemma LinksOfSame(fs: Fs, fs2: Fs, n: nat, x: nat)
    requires Shape(fs) && Shape(fs2) && fs.geo == fs2.geo && fs.inodes == fs2.inodes && fs.ibits == fs2.ibits
    ensures LinksOf(fs, n, x) == LinksOf(fs2, n, x)
  {}

  /** Taking free blocks makes them spare. */
  lemma TakeBlocks(fs: Fs, debt: Debt, fs2: Fs, t: set<nat>)
    requires InvX(fs, debt) && BitsSet(fs, fs2, t, true)
    requires forall b | b in t :: !Alloc(fs, b)
    ensures InvX(fs2, debt.(spare := debt.spare + t))
  {
    hide Alloc, Geo.IsMeta, Inodes, LinksMatch, InodeCounts, BlockCounts, Shape;
    AllocAfter(fs, fs2, t, true);
    UntouchedAlike(fs, debt.newborn, fs2, debt.newborn);
    QuietStep(fs, debt, fs2, debt.spare + t);
  }

  /** Spare blocks may be given back. */
  lemma GiveBlocks(fs: Fs, debt: Debt, fs2: Fs, t: set<nat>)
    requires InvX(fs, debt) && BitsSet(fs, fs2, t, false)
    requires t <= debt.spare
    ensures InvX(fs2, debt.(spare := debt.spare - t))
  {
    hide Alloc, Geo.IsMeta, Inodes, LinksMatch, InodeCounts, BlockCounts, Shape;
    AllocAfter(fs, fs2, t, false);
    UntouchedAlike(fs, debt.newborn, fs2, debt.newborn);
    QuietStep(fs, debt, fs2, debt.spare - t);
  }

  // ---- spare blocks may be written at will ----

  lemma SpareMissed(fs: Fs, debt: Debt, b: nat, k: nat)
    requires InvX(fs, debt) && b in debt.spare && k < |fs.inodes| && Counted(fs, debt.newborn, k)
    ensures TreeCnt(fs.blk, fs.inodes[k], b) == 0
  {
    hide TreeCnt, Inodes, LinksMatch, InodeCounts, BlockCounts;
    SumMember(|fs.inodes|, OwnTerm(fs, debt.newborn, b), k);
    assert Own(fs, debt.newborn, b) == 0;
  }

  lemma AlikeAfterWrite(fs: Fs, n: nat, blk2: seq<Block>, w: set<nat>, k: nat)
    requires Shape(fs) && SameBut(fs.blk, blk2, w) && k < |fs.inodes|
    requires Counted(fs, n, k) ==> Misses(fs.blk, fs.inodes[k], w)
    ensures Alike(fs, n, fs.(blk := blk2), n, k)
  {
    hide TreeCnt, DirCnt, DirShape, Geo.Valid, NoTree;
    if Counted(fs, n, k) {
      forall b: nat ensures TreeCnt(fs.blk, fs.inodes[k], b) == TreeCnt(blk2, fs.inodes[k], b) {
        TreeFrame(fs.blk, blk2, w, fs.inodes[k], b);
      }
      if IsDir(fs.inodes[k]) {
        assert !NoTree(fs.inodes[k]) by { DirHasTree(fs.inodes[k]); }
        DirFrame(fs.blk, blk2, w, fs.inodes[k]);
      }
    }
  }

  lemma DirHasTree(i: Inode)
    requires IsDir(i) || IsReg(i)
    ensures !NoTree(i)
  {}

  lemma WriteSpare(fs: Fs, debt: Debt, blk2: seq<Block>, w: set<nat>)
    requires InvX(fs, debt) && SameBut(fs.blk, blk2, w) && w <= debt.spare
    ensures InvX(fs.(blk := blk2), debt)
    ensures forall k: nat | k < |fs.inodes| && Counted(fs, debt.newborn, k) :: Misses(fs.blk, fs.inodes[k], w)
  {
    hide TreeCnt, DirCnt, DirShape, Geo.Valid, NoTree, KnownType, Own, Refs, LinksOf, Clear, Total, IsDir;
    var fs2 := fs.(blk := blk2);
    forall k: nat | k < |fs.inodes| && Counted(fs, debt.newborn, k)
      ensures Misses(fs.blk, fs.inodes[k], w)
    {
      forall b | b in w ensures TreeCnt(fs.blk, fs.inodes[k], b) == 0 {
        SpareMissed(fs, debt, b, k);
      }
    }
    forall k: nat | k < |fs.inodes| ensures Alike(fs, debt.newborn, fs2, debt.newborn, k) {
      AlikeAfterWrite(fs, debt.newborn, blk2, w, k);
    }
    assert forall b: nat :: Alloc(fs, b) == Alloc(fs2, b);
    QuietStep(fs, debt, fs2, debt.spare);
  }
}
