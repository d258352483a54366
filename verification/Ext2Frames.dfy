/** Writing blocks that a tree does not meet leaves everything read through that tree alone. */
module Ext2Frames {
  import opened Ext2Layout

  /** d2 is d except in the blocks of w. */
  ghost predicate SameBut(d: seq<Block>, d2: seq<Block>, w: set<nat>) {
    |d| == |d2| && forall x: nat | x < |d| && x !in w :: d[x] == d2[x]
  }

  ghost predicate Misses(d: seq<Block>, i: Inode, w: set<nat>) {
    forall x | x in w :: TreeCnt(d, i, x) == 0
  }

  lemma {:induction false} WalkFrame(d: seq<Block>, d2: seq<Block>, w: set<nat>, blk: nat, depth: nat, b: nat)
    requires SameBut(d, d2, w)
    requires forall x | x in w :: WalkCnt(d, blk, depth, x) == 0
    ensures WalkCnt(d, blk, depth, b) == WalkCnt(d2, blk, depth, b)
    decreases depth, 0
  {
    if blk != 0 && depth != 0 && blk < |d| {
      assert WalkCnt(d, blk, depth, blk) >= 1;
      forall x | x in w ensures PtrsCnt(d, d[blk].ptrs, depth - 1, x, PTRS) == 0 {
        assert WalkCnt(d, blk, depth, x) == 0;
      }
      PtrsFrame(d, d2, w, d[blk].ptrs, depth - 1, b, PTRS);
    }
  }

  lemma {:induction false} PtrsFrame(d: seq<Block>, d2: seq<Block>, w: set<nat>, ptrs: seq<nat>, depth: nat,
                                     b: nat, n: nat)
    requires n <= |ptrs|
    requires SameBut(d, d2, w)
    requires forall x | x in w :: PtrsCnt(d, ptrs, depth, x, n) == 0
    ensures PtrsCnt(d, ptrs, depth, b, n) == PtrsCnt(d2, ptrs, depth, b, n)
    decreases depth, n + 1
  {
    if n > 0 {
      forall x | x in w
        ensures PtrsCnt(d, ptrs, depth, x, n - 1) == 0 && WalkCnt(d, ptrs[n - 1], depth, x) == 0
      {
        assert PtrsCnt(d, ptrs, depth, x, n) == 0;
      }
      PtrsFrame(d, d2, w, ptrs, depth, b, n - 1);
      WalkFrame(d, d2, w, ptrs[n - 1], depth, b);
    }
  }

  lemma {:induction false} SlotsFrame(d: seq<Block>, d2: seq<Block>, w: set<nat>, i: Inode, b: nat, n: nat)
    requires n <= 15
    requires SameBut(d, d2, w)
    requires forall x | x in w :: SlotsCnt(d, i, x, n) == 0
    ensures SlotsCnt(d, i, b, n) == SlotsCnt(d2, i, b, n)
  {
    if n > 0 {
      forall x | x in w
        ensures SlotsCnt(d, i, x, n - 1) == 0 && WalkCnt(d, i.block[n - 1], Depth(n - 1), x) == 0
      {
        assert SlotsCnt(d, i, x, n) == 0;
      }
      SlotsFrame(d, d2, w, i, b, n - 1);
      WalkFrame(d, d2, w, i.block[n - 1], Depth(n - 1), b);
    }
  }

  lemma TreeFrame(d: seq<Block>, d2: seq<Block>, w: set<nat>, i: Inode, b: nat)
    requires SameBut(d, d2, w) && Misses(d, i, w)
    ensures TreeCnt(d, i, b) == TreeCnt(d2, i, b)
  {
    if !NoTree(i) {
      forall x | x in w ensures SlotsCnt(d, i, x, 15) == 0 {
        assert TreeCnt(d, i, x) == 0;
      }
      SlotsFrame(d, d2, w, i, b, 15);
    }
  }

  lemma {:induction false} SlotCounts(d: seq<Block>, i: Inode, b: nat, j: nat, n: nat)
    requires j < n <= 15
    ensures SlotsCnt(d, i, b, n) >= WalkCnt(d, i.block[j], Depth(j), b)
  {
    if j < n - 1 {
      SlotCounts(d, i, b, j, n - 1);
    }
  }

  lemma {:induction false} PtrCounts(d: seq<Block>, ptrs: seq<nat>, depth: nat, b: nat, j: nat, n: nat)
    requires j < n <= |ptrs|
    ensures PtrsCnt(d, ptrs, depth, b, n) >= WalkCnt(d, ptrs[j], depth, b)
    decreases n
  {
    if j < n - 1 {
      PtrCounts(d, ptrs, depth, b, j, n - 1);
    }
  }

  /** The block in slot j of a tree is met by the walk. */
  lemma SlotMet(d: seq<Block>, i: Inode, j: nat)
    requires j < 15 && i.block[j] != 0 && !NoTree(i)
    ensures TreeCnt(d, i, i.block[j]) >= 1
  {
    SlotCounts(d, i, i.block[j], j, 15);
  }

  // ---- directories ----

  lemma {:induction false} DirCntFrame(d: seq<Block>, d2: seq<Block>, w: set<nat>, i: Inode, q: Query, n: nat)
    requires n <= 12
    requires SameBut(d, d2, w)
    requires forall j | 0 <= j < n :: i.block[j] !in w || i.block[j] == 0
    ensures DirCnt(d, i, q, n) == DirCnt(d2, i, q, n)
  {
    if n > 0 {
      DirCntFrame(d, d2, w, i, q, n - 1);
    }
  }

  lemma {:induction false} LookupFrame(d: seq<Block>, d2: seq<Block>, w: set<nat>, i: Inode, name: string, j: nat)
    requires j <= 12
    requires SameBut(d, d2, w)
    requires forall j | 0 <= j < 12 :: i.block[j] !in w || i.block[j] == 0
    ensures Lookup(d, i, name, j) == Lookup(d2, i, name, j)
    decreases 12 - j
  {
    if j < 12 {
      LookupFrame(d, d2, w, i, name, j + 1);
    }
  }

  lemma DirFrame(d: seq<Block>, d2: seq<Block>, w: set<nat>, i: Inode)
    requires SameBut(d, d2, w) && Misses(d, i, w) && !NoTree(i)
    ensures forall q: Query :: DirCnt(d, i, q) == DirCnt(d2, i, q)
    ensures forall nm: string :: Lookup(d, i, nm) == Lookup(d2, i, nm)
    ensures DirShape(d, i) ==> DirShape(d2, i)
  {
    forall j: nat | j < 15 && i.block[j] != 0 ensures i.block[j] !in w {
      SlotMet(d, i, j);
    }
    forall q: Query ensures DirCnt(d, i, q) == DirCnt(d2, i, q) {
      DirCntFrame(d, d2, w, i, q, 12);
    }
    forall nm: string ensures Lookup(d, i, nm) == Lookup(d2, i, nm) {
      LookupFrame(d, d2, w, i, nm, 0);
    }
  }

  // ---- file contents ----

  /** Pointer blocks and the data block that logical block lbn goes through are met by the walk. */
  lemma PathMet(d: seq<Block>, i: Inode, lbn: nat)
    requires !NoTree(i)
    ensures BlockAt(d, i, lbn) != 0 ==> TreeCnt(d, i, BlockAt(d, i, lbn)) >= 1
    ensures lbn >= 12 && i.block[12] != 0 ==> TreeCnt(d, i, i.block[12]) >= 1
    ensures lbn >= 12 && i.block[13] != 0 ==> TreeCnt(d, i, i.block[13]) >= 1
    ensures lbn >= 12 + PTRS ==>
      var rel := lbn - 12 - PTRS;
      rel / PTRS < PTRS ==>
        var leaf := PtrOf(d, i.block[13], rel / PTRS);
        leaf != 0 ==> TreeCnt(d, i, leaf) >= 1
  {
    if i.block[12] != 0 { SlotMet(d, i, 12); }
    if i.block[13] != 0 { SlotMet(d, i, 13); }
    var b := BlockAt(d, i, lbn);
    if lbn < 12 {
      if b != 0 { SlotMet(d, i, lbn); }
    } else if lbn < 12 + PTRS {
      if b != 0 {
        SlotCounts(d, i, b, 12, 15);
        PtrCounts(d, d[i.block[12]].ptrs, 0, b, lbn - 12, PTRS);
      }
    } else if (lbn - 12 - PTRS) / PTRS < PTRS {
      DoubleMet(d, i, (lbn - 12 - PTRS) / PTRS, (lbn - 12 - PTRS) % PTRS);
    }
  }

  lemma DoubleMet(d: seq<Block>, i: Inode, o: nat, n: nat)
    requires !NoTree(i) && o < PTRS && n < PTRS
    ensures
      var leaf := PtrOf(d, i.block[13], o);
      && (leaf != 0 ==> TreeCnt(d, i, leaf) >= 1)
      && (PtrOf(d, leaf, n) != 0 ==> TreeCnt(d, i, PtrOf(d, leaf, n)) >= 1)
  {
    var root := i.block[13];
    var leaf := PtrOf(d, root, o);
    if leaf != 0 {
      SlotCounts(d, i, leaf, 13, 15);
      PtrCounts(d, d[root].ptrs, 1, leaf, o, PTRS);
      var b := PtrOf(d, leaf, n);
      if b != 0 {
        SlotCounts(d, i, b, 13, 15);
        PtrCounts(d, d[root].ptrs, 1, b, o, PTRS);
        PtrCounts(d, d[leaf].ptrs, 0, b, n, PTRS);
      }
    }
  }

  lemma FileFrame(d: seq<Block>, d2: seq<Block>, w: set<nat>, i: Inode)
    requires SameBut(d, d2, w) && Misses(d, i, w) && !NoTree(i)
    ensures FileBytes(d, i) == FileBytes(d2, i)
  {
    forall pos: nat ensures FileByte(d, i, pos) == FileByte(d2, i, pos) {
      PathMet(d, i, pos / BS);
    }
  }
}
