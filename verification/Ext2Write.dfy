/** Laying out a regular file: block map, pointer blocks, data. */
module Ext2Write {
  import opened Sequences
  import opened Ext2Layout
  import opened Ext2State
  import opened Ext2Frames
  import opened Ext2Steps
  import opened Ext2Volume
  import opened Ext2Bitmaps
  import opened Ext2Engine
  import opened Ext2Alloc

  const SINGLE: nat := 12 + PTRS
  const MAX_DATA: nat := SINGLE + PTRS * PTRS

  /** s[x], or 0 past the end. */
  function At(s: seq<nat>, x: nat): nat { if x < |s| then s[x] else 0 }

  // ---- counting through a laid-out map ----

  /** Occurrences of b among s[lo], ..., s[hi-1]. */
  ghost function RangeCnt(s: seq<nat>, lo: nat, hi: nat, b: nat): nat
    requires lo <= hi
    decreases hi
  {
    if lo == hi then 0 else RangeCnt(s, lo, hi - 1, b) + One(At(s, hi - 1) == b && b != 0)
  }

  lemma {:induction false} RangeSplit(s: seq<nat>, lo: nat, mid: nat, hi: nat, b: nat)
    requires lo <= mid <= hi
    ensures RangeCnt(s, lo, hi, b) == RangeCnt(s, lo, mid, b) + RangeCnt(s, mid, hi, b)
    decreases hi
  {
    if mid < hi { RangeSplit(s, lo, mid, hi - 1, b); }
  }

  lemma {:induction false} RangeOnce(s: seq<nat>, hi: nat, b: nat)
    requires Distinct(s) && 0 !in s
    ensures RangeCnt(s, 0, hi, b) == One(b != 0 && exists x :: 0 <= x < |s| && x < hi && s[x] == b)
  {
    if hi > 0 { RangeOnce(s, hi - 1, b); }
  }

  /** A pointer block holds s[lo], s[lo+1], ..., zeros past the end. */
  ghost predicate Holds(ptrs: seq<nat>, s: seq<nat>, lo: nat) {
    |ptrs| == PTRS && forall x | 0 <= x < PTRS :: ptrs[x] == At(s, lo + x)
  }

  lemma {:induction false} LeafCnt(d: seq<Block>, ptrs: seq<nat>, s: seq<nat>, lo: nat, b: nat, n: nat)
    requires n <= PTRS && Holds(ptrs, s, lo)
    ensures PtrsCnt(d, ptrs, 0, b, n) == RangeCnt(s, lo, lo + n, b)
  {
    if n > 0 { LeafCnt(d, ptrs, s, lo, b, n - 1); }
  }

  lemma {:induction false} DirectCnt(d: seq<Block>, i: Inode, s: seq<nat>, b: nat, n: nat)
    requires n <= 12 && forall x | 0 <= x < n :: i.block[x] == At(s, x)
    ensures SlotsCnt(d, i, b, n) == RangeCnt(s, 0, n, b)
  {
    if n > 0 { DirectCnt(d, i, s, b, n - 1); }
  }

  function LeafStart(o: nat): nat { SINGLE + o * PTRS }

  /** The leaves hold the data blocks from SINGLE on, 1024 each. */
  ghost predicate LeavesHold(d: seq<Block>, leaves: seq<nat>, db: seq<nat>) {
    forall o | 0 <= o < |leaves| :: 0 < leaves[o] < |d| && Holds(d[leaves[o]].ptrs, db, LeafStart(o))
  }

  lemma {:induction false} RootCnt(d: seq<Block>, droot: seq<nat>, leaves: seq<nat>, db: seq<nat>, b: nat, n: nat)
    requires n <= PTRS && Holds(droot, leaves, 0)
    requires LeavesHold(d, leaves, db) && |db| <= LeafStart(|leaves|)
    ensures PtrsCnt(d, droot, 1, b, n) == RangeCnt(leaves, 0, n, b) + RangeCnt(db, SINGLE, LeafStart(n), b)
  {
    hide LeavesHold, WalkCnt;
    if n > 0 {
      RootCnt(d, droot, leaves, db, b, n - 1);
      OneLeafCnt(d, leaves, db, b, n - 1);
      RangeSplit(db, SINGLE, LeafStart(n - 1), LeafStart(n), b);
    }
  }

  lemma OneLeafCnt(d: seq<Block>, leaves: seq<nat>, db: seq<nat>, b: nat, o: nat)
    requires LeavesHold(d, leaves, db) && |db| <= LeafStart(|leaves|)
    ensures WalkCnt(d, At(leaves, o), 1, b) ==
      One(At(leaves, o) == b && b != 0) + RangeCnt(db, LeafStart(o), LeafStart(o + 1), b)
  {
    hide Holds, RangeCnt, WalkCnt;
    LeafStartGrows(|leaves|, o);
    if o < |leaves| {
      PointerWalk(d, leaves[o], db, LeafStart(o), b);
    } else {
      PastEnd(db, LeafStart(o), LeafStart(o + 1), b);
      NoWalk(d, 1, b);
    }
  }

  lemma LeafStartGrows(n: nat, o: nat)
    ensures LeafStart(o + 1) == LeafStart(o) + PTRS
    ensures n <= o ==> LeafStart(n) <= LeafStart(o)
  {}

  lemma NoWalk(d: seq<Block>, depth: nat, b: nat)
    ensures WalkCnt(d, 0, depth, b) == 0
  {}

  lemma PointerWalk(d: seq<Block>, blk: nat, s: seq<nat>, lo: nat, b: nat)
    requires 0 < blk < |d| && Holds(d[blk].ptrs, s, lo)
    ensures WalkCnt(d, blk, 1, b) == One(blk == b && b != 0) + RangeCnt(s, lo, lo + PTRS, b)
  {
    hide Holds, RangeCnt;
    LeafCnt(d, d[blk].ptrs, s, lo, b, PTRS);
  }

  lemma {:induction false} PastEnd(s: seq<nat>, lo: nat, hi: nat, b: nat)
    requires |s| <= lo <= hi
    ensures RangeCnt(s, lo, hi, b) == 0
    decreases hi
  {
    if lo < hi { PastEnd(s, lo, hi - 1, b); }
  }

  function LeafCount(n: nat): nat { if n <= SINGLE then 0 else (n - SINGLE + PTRS - 1) / PTRS }

  /** The finished map of data blocks db: every pointer block in place on d. */
  ghost predicate Mapped(d: seq<Block>, i: Inode, db: seq<nat>, leaves: seq<nat>) {
    && |db| <= MAX_DATA && |leaves| == LeafCount(|db|)
    && (forall x | 0 <= x < 12 :: i.block[x] == At(db, x)) && i.block[14] == 0
    && (i.block[12] != 0 <==> |db| > 12) && (i.block[13] != 0 <==> |db| > SINGLE)
    && (|db| > 12 ==> i.block[12] < |d| && Holds(d[i.block[12]].ptrs, db, 12))
    && (|db| > SINGLE ==> i.block[13] < |d| && Holds(d[i.block[13]].ptrs, leaves, 0))
    && LeavesHold(d, leaves, db)
  }

  ghost function Taken(i: Inode, db: seq<nat>, leaves: seq<nat>): set<nat> {
    TakenSet(i.block[12], i.block[13], db, leaves)
  }

  ghost function Elems(s: seq<nat>): set<nat> { set x | x in s }

  ghost function TakenSet(ind: nat, root: nat, db: seq<nat>, leaves: seq<nat>): set<nat> {
    Elems(db) + Elems(leaves)
      + (if ind != 0 then {ind} else {}) + (if root != 0 then {root} else {})
  }

  /** All the blocks of the map are different. */
  ghost predicate AllDiffer(ind: nat, root: nat, db: seq<nat>, leaves: seq<nat>) {
    && Distinct(db) && Distinct(leaves) && 0 !in db && 0 !in leaves
    && (forall x | x in db :: x !in leaves && x != ind && x != root)
    && (forall x | x in leaves :: x != ind && x != root)
    && (ind == root ==> ind == 0)
  }

  lemma MappedTree(d: seq<Block>, i: Inode, db: seq<nat>, leaves: seq<nat>, b: nat)
    requires Mapped(d, i, db, leaves) && IsReg(i)
    requires AllDiffer(i.block[12], i.block[13], db, leaves)
    ensures TreeCnt(d, i, b) == One(b in Taken(i, db, leaves))
  {
    hide IsReg, LeavesHold, Holds, WalkCnt, RangeCnt, SlotsCnt;
    assert !NoTree(i) by { RegHasTree(i); }
    DirectCnt(d, i, db, b, 12);
    LastSlots(d, i, b);
    SingleWalk(d, i, db, leaves, b);
    DoubleWalk(d, i, db, leaves, b);
    RangeSplit(db, 0, 12, SINGLE, b);
    RangeSplit(db, 0, SINGLE, MAX_DATA, b);
    RangeOnce(db, MAX_DATA, b);
    RangeOnce(leaves, PTRS, b);
    LeafCountBounds(|db|);
  }

  lemma SingleWalk(d: seq<Block>, i: Inode, db: seq<nat>, leaves: seq<nat>, b: nat)
    requires Mapped(d, i, db, leaves)
    ensures WalkCnt(d, i.block[12], 1, b) == One(i.block[12] == b && b != 0) + RangeCnt(db, 12, SINGLE, b)
  {
    hide Holds, RangeCnt, LeavesHold;
    if |db| > 12 {
      PointerWalk(d, i.block[12], db, 12, b);
    } else {
      PastEnd(db, 12, SINGLE, b);
    }
  }

  lemma DoubleWalk(d: seq<Block>, i: Inode, db: seq<nat>, leaves: seq<nat>, b: nat)
    requires Mapped(d, i, db, leaves)
    ensures WalkCnt(d, i.block[13], 2, b) ==
      One(i.block[13] == b && b != 0) + RangeCnt(leaves, 0, PTRS, b) + RangeCnt(db, SINGLE, MAX_DATA, b)
  {
    hide Holds, RangeCnt, LeavesHold;
    LeafCountBounds(|db|);
    if |db| > SINGLE {
      RootCnt(d, d[i.block[13]].ptrs, leaves, db, b, PTRS);
      assert LeafStart(PTRS) == MAX_DATA;
    } else {
      PastEnd(db, SINGLE, MAX_DATA, b);
      PastEnd(leaves, 0, PTRS, b);
    }
  }

  lemma LastSlots(d: seq<Block>, i: Inode, b: nat)
    requires i.block[14] == 0
    ensures SlotsCnt(d, i, b, 15) == SlotsCnt(d, i, b, 12) + WalkCnt(d, i.block[12], 1, b) + WalkCnt(d, i.block[13], 2, b)
  {
    assert SlotsCnt(d, i, b, 15) == SlotsCnt(d, i, b, 14);
    assert SlotsCnt(d, i, b, 14) == SlotsCnt(d, i, b, 13) + WalkCnt(d, i.block[13], 2, b);
  }

  lemma RegHasTree(i: Inode)
    requires IsReg(i)
    ensures !NoTree(i)
  {}

  lemma LeafCountBounds(n: nat)
    requires n <= MAX_DATA
    ensures LeafCount(n) <= PTRS && n <= LeafStart(LeafCount(n))
    ensures n > SINGLE ==> LeafCount(n) >= 1 && n > LeafStart(LeafCount(n) - 1)
  {}

  /** Reading through the map finds the data blocks in order. */
  lemma MappedAt(d: seq<Block>, i: Inode, db: seq<nat>, leaves: seq<nat>, x: nat)
    requires Mapped(d, i, db, leaves) && x < |db|
    ensures BlockAt(d, i, x) == db[x]
  {
    LeafCountBounds(|db|);
    if x >= SINGLE {
      var o, n := (x - SINGLE) / PTRS, (x - SINGLE) % PTRS;
      assert LeafStart(o) + n == x;
      assert Holds(d[leaves[o]].ptrs, db, LeafStart(o));
    }
  }
}
