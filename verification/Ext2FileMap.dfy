/** The allocating loop of a file write, one data block at a time. */
module Ext2FileMap {
  import opened Sequences
  import opened Ext2Layout
  import opened Ext2State
  import opened Ext2Frames
  import opened Ext2Steps
  import opened Ext2Volume
  import opened Ext2Bitmaps
  import opened Ext2Engine
  import opened Ext2Alloc
  import opened Ext2Write
  import opened Ext2Counts

  ghost predicate FreeFor(fs0: Fs, t: set<nat>)
    requires Shape(fs0)
  {
    forall b | b in t :: 0 < b < fs0.geo.blocks && !Alloc(fs0, b) && !fs0.geo.IsMeta(b)
  }

  ghost predicate MetaTaken(fs0: Fs)
    requires Shape(fs0)
  {
    forall b: nat | b < fs0.geo.blocks && fs0.geo.IsMeta(b) :: Alloc(fs0, b)
  }

  /** A write in progress: from fs0, the transaction has taken exactly the free blocks t,
      and nothing outside t has been written. */
  ghost predicate Going(v: Volume, ctx: AllocCtx, fs0: Fs, t: set<nat>)
    reads v, ctx
  {
    && ctx.Ready(v) && ctx.CursorsBehind() && Shape(fs0) && MetaTaken(fs0)
    && v.fs == fs0.(blk := v.fs.blk) && SameBut(fs0.blk, v.fs.blk, t)
    && BitsSet(v.fs, ctx.Pending(v), t, true)
    && FreeFor(fs0, t)
  }

  lemma AllocStep(f: Fs, p: Fs, t: set<nat>, r: nat)
    requires BitsSet(f, p, t, true) && MetaTaken(f) && r == Pick(p, 0) != 0
    ensures r < f.geo.blocks && r !in t && !Alloc(f, r) && !f.geo.IsMeta(r)
    ensures BitsSet(f, WithBit(p, r, true), t + {r}, true)
  {
    hide Pick, WithBit, Geo.IsMeta, Geo.Valid;
    PickIsFree(p, 0);
    AllocAfter(f, p, t, true);
    WithBitSets(p, r, true);
  }

  lemma ZeroIsMeta(fs: Fs)
    requires Shape(fs) && MetaTaken(fs)
    ensures Alloc(fs, 0)
  {
    GroupEnds(fs.geo, 0);
    assert fs.geo.IsMeta(0);
  }

  ghost predicate BlockCounts0(fs0: Fs) { Shape(fs0) && BlockCounts(fs0) }

  /** One block for the file; nothing else changes. */
  method AllocFor(v: Volume, ctx: AllocCtx, ghost fs0: Fs, ghost t: set<nat>) returns (b: nat)
    requires Going(v, ctx, fs0, t) && BlockCounts0(fs0)
    modifies ctx, v`sb, v`gd
    ensures b != 0 ==> Going(v, ctx, fs0, t + {b}) && b !in t && b < fs0.geo.blocks && !fs0.geo.IsMeta(b)
    ensures b == 0 ==> |t| == fs0.totB
  {
    hide Stored, Counters, Loaded, Pick, WithBit, Geo.IsMeta, Geo.Valid, BlockCounts;
    ZeroIsMeta(fs0);
    AllocAfter(v.fs, ctx.Pending(v), t, true);
    ghost var p := ctx.Pending(v);
    assert MetaTaken(v.fs);
    b := ctx.AllocBlock(v);
    if b != 0 {
      AllocStep(v.fs, p, t, b);
    } else {
      UsedUp(fs0, v.fs, p, t);
    }
  }

  /** A transaction that cannot go on has taken all there was. */
  lemma UsedUp(fs0: Fs, f: Fs, p: Fs, t: set<nat>)
    requires Shape(fs0) && BlockCounts(fs0) && f == fs0.(blk := f.blk) && BitsSet(f, p, t, true) && FreeFor(fs0, t)
    requires Alloc(p, 0) && Pick(p, 0) == 0
    ensures |t| == fs0.totB
  {
    hide Pick, Geo.IsMeta, Geo.Valid;
    PickEmpty(p);
    SameFree(fs0, f, t);
    TakenFromTotal(f, p, t);
  }

  lemma SameFree(fs0: Fs, f: Fs, t: set<nat>)
    requires Shape(fs0) && BlockCounts(fs0) && f == fs0.(blk := f.blk) && Shape(f) && FreeFor(fs0, t)
    ensures BlockCounts(f) && f.totB == fs0.totB && forall b | b in t :: !Alloc(f, b)
  {
    forall b | b in t ensures !Alloc(f, b) { assert !Alloc(fs0, b); }
  }

  /** Blocks that n data blocks take, with their pointer blocks. */
  function NeedBlocks(n: nat): nat {
    n + (if n > 12 then 1 else 0) + (if n > SINGLE then 1 else 0) + LeafCount(n)
  }

  lemma {:induction false} NeedGrows(n: nat, m: nat)
    requires n <= m
    ensures NeedBlocks(n) <= NeedBlocks(m)
  {}

  lemma HoldsSkip(ptrs: seq<nat>, s: seq<nat>, b: nat, lo: nat)
    requires Holds(ptrs, s, lo) && (|s| < lo || |s| >= lo + PTRS)
    ensures Holds(ptrs, s + [b], lo)
  {}

  lemma HoldsPut(ptrs: seq<nat>, s: seq<nat>, b: nat, lo: nat)
    requires Holds(ptrs, s, lo) && lo <= |s| < lo + PTRS
    ensures Holds(ptrs[|s| - lo := b], s + [b], lo)
  {}

  lemma HoldsZeros(s: seq<nat>, lo: nat)
    requires |s| <= lo
    ensures Holds(seq(PTRS, _ => 0), s, lo)
  {}

  lemma DistinctGrows(s: seq<nat>, b: nat)
    requires Distinct(s) && b !in s
    ensures Distinct(s + [b])
  {}

  // ---- the tables of the loop ----

  /** The inode's slots, the tables being filled, the data blocks placed and the leaves used so far. */
  datatype Tables = Tables(block: seq<nat>, single: seq<nat>, droot: seq<nat>, dleaf: seq<nat>,
                           leafBlock: nat, leafIndex: int, db: seq<nat>, leaves: seq<nat>)

  ghost predicate Sized(t: Tables) {
    |t.block| == 15 && |t.single| == |t.droot| == |t.dleaf| == PTRS
  }

  ghost predicate SlotsLaid(t: Tables) {
    && |t.block| == 15 && |t.db| <= MAX_DATA
    && (forall x | 0 <= x < 12 :: t.block[x] == At(t.db, x)) && t.block[14] == 0
    && (t.block[12] != 0 <==> |t.db| > 12) && (t.block[13] != 0 <==> |t.db| > SINGLE)
    && Holds(t.single, t.db, 12)
    && AllDiffer(t.block[12], t.block[13], t.db, t.leaves)
  }

  ghost predicate LeavesLaid(t: Tables, d: seq<Block>) {
    && |t.leaves| == LeafCount(|t.db|) && t.leafIndex == |t.leaves| - 1
    && Holds(t.droot, t.leaves, 0)
    && (t.leaves != [] ==> t.leafBlock == t.leaves[t.leafIndex] && Holds(t.dleaf, t.db, LeafStart(t.leafIndex)))
    && (forall o | 0 <= o < t.leafIndex :: 0 < t.leaves[o] < |d| && Holds(d[t.leaves[o]].ptrs, t.db, LeafStart(o)))
  }

  /** Tables agree with the data blocks placed so far; all leaves but the last are on disk. */
  ghost predicate LaidOut(t: Tables, d: seq<Block>) { Sized(t) && SlotsLaid(t) && LeavesLaid(t, d) }

  ghost function Claimed(t: Tables): set<nat> {
    TakenSet(At(t.block, 12), At(t.block, 13), t.db, t.leaves)
  }

  /** What placing block b does to the tables, with pointer blocks ind, root and leaf in place
      (0 where not needed yet). */
  ghost function Placed(t: Tables, b: nat, ind: nat, root: nat, leaf: nat): Tables
    requires Sized(t) && |t.db| < MAX_DATA
  {
    var n := |t.db|;
    if n < 12 then t.(block := t.block[n := b], db := t.db + [b])
    else if n < SINGLE then
      t.(block := t.block[12 := ind], single := t.single[n - 12 := b], db := t.db + [b])
    else
      var outer, inner := (n - SINGLE) / PTRS, (n - SINGLE) % PTRS;
      if t.leafIndex == outer then t.(dleaf := t.dleaf[inner := b], db := t.db + [b])
      else
        t.(block := t.block[13 := root], droot := t.droot[outer := leaf], leafBlock := leaf, leafIndex := outer,
           dleaf := seq(PTRS, _ => 0)[inner := b], db := t.db + [b], leaves := t.leaves + [leaf])
  }

  /** The pointer blocks are those already in use, or new ones where one is first needed. */
  ghost predicate Fits(t: Tables, b: nat, ind: nat, root: nat, leaf: nat)
    requires |t.block| == 15
  {
    var n := |t.db|;
    && n < MAX_DATA && b != 0 && b !in Claimed(t)
    && (12 <= n < SINGLE ==> ind != 0 && if t.block[12] != 0 then ind == t.block[12] else ind !in Claimed(t) + {b})
    && (n >= SINGLE ==> root != 0 && if t.block[13] != 0 then root == t.block[13] else root !in Claimed(t) + {b})
    && (n >= SINGLE && t.leafIndex != (n - SINGLE) / PTRS ==> leaf != 0 && leaf !in Claimed(t) + {b, root})
  }

  lemma DirectPlaced(t: Tables, d: seq<Block>, b: nat)
    requires LaidOut(t, d) && Fits(t, b, 0, 0, 0) && |t.db| < 12
    ensures LaidOut(Placed(t, b, 0, 0, 0), d) && Claimed(Placed(t, b, 0, 0, 0)) == Claimed(t) + {b}
  {
    hide Holds;
    HoldsSkip(t.single, t.db, b, 12);
    DistinctGrows(t.db, b);
  }

  lemma SinglePlaced(t: Tables, d: seq<Block>, b: nat, ind: nat)
    requires LaidOut(t, d) && Fits(t, b, ind, 0, 0) && 12 <= |t.db| < SINGLE
    ensures LaidOut(Placed(t, b, ind, 0, 0), d) && Claimed(Placed(t, b, ind, 0, 0)) == Claimed(t) + {b, ind}
  {
    hide Holds;
    HoldsPut(t.single, t.db, b, 12);
    DistinctGrows(t.db, b);
  }

  /** Next block of a leaf already begun. */
  lemma InnerPlaced(t: Tables, d: seq<Block>, b: nat, root: nat)
    requires LaidOut(t, d) && Fits(t, b, 0, root, 0) && |t.db| >= SINGLE
    requires t.leafIndex == (|t.db| - SINGLE) / PTRS
    ensures LaidOut(Placed(t, b, 0, root, 0), d) && Claimed(Placed(t, b, 0, root, 0)) == Claimed(t) + {b}
  {
    hide Holds, LeafStart;
    var t2 := Placed(t, b, 0, root, 0);
    LeafPlace(|t.db|);
    HoldsSkip(t.single, t.db, b, 12);
    HoldsPut(t.dleaf, t.db, b, LeafStart(t.leafIndex));
    DistinctGrows(t.db, b);
    forall o | 0 <= o < t.leafIndex ensures Holds(d[t.leaves[o]].ptrs, t2.db, LeafStart(o)) {
      LeafStartGrows(o + 1, t.leafIndex);
      LeafStartGrows(o, o);
      HoldsSkip(d[t.leaves[o]].ptrs, t.db, b, LeafStart(o));
    }
  }

  lemma LeafPlace(n: nat)
    requires SINGLE <= n < MAX_DATA
    ensures var o := (n - SINGLE) / PTRS;
      && LeafStart(o) <= n < LeafStart(o) + PTRS && n - LeafStart(o) == (n - SINGLE) % PTRS
      && LeafCount(n + 1) == o + 1 && o < PTRS
      && (LeafCount(n) == o + 1 <==> n > LeafStart(o)) && (LeafCount(n) == o <==> n == LeafStart(o))
  {}

  /** First block of a new leaf; the leaf before it has reached the disk. */
  lemma OuterPlaced(t: Tables, d: seq<Block>, b: nat, root: nat, leaf: nat)
    requires LaidOut(t, d) && Fits(t, b, 0, root, leaf) && |t.db| >= SINGLE
    requires t.leafIndex != (|t.db| - SINGLE) / PTRS
    requires t.leaves != [] ==> 0 < t.leafBlock < |d| && d[t.leafBlock].ptrs == t.dleaf
    ensures LaidOut(Placed(t, b, 0, root, leaf), d)
    ensures Claimed(Placed(t, b, 0, root, leaf)) == Claimed(t) + {b, root, leaf}
  {
    hide Holds, LeafStart, AllDiffer, LeavesLaid;
    LeafPlace(|t.db|);
    HoldsSkip(t.single, t.db, b, 12);
    OuterLeaves(t, d, b, root, leaf);
    OuterDiffer(t, b, root, leaf);
  }

  lemma OuterDiffer(t: Tables, b: nat, root: nat, leaf: nat)
    requires SlotsLaid(t) && Fits(t, b, 0, root, leaf) && |t.db| >= SINGLE
    requires t.leafIndex != (|t.db| - SINGLE) / PTRS
    ensures AllDiffer(t.block[12], root, t.db + [b], t.leaves + [leaf])
  {
    hide Holds;
    DistinctGrows(t.db, b);
    DistinctGrows(t.leaves, leaf);
  }

  lemma OuterLeaves(t: Tables, d: seq<Block>, b: nat, root: nat, leaf: nat)
    requires Sized(t) && LeavesLaid(t, d) && SINGLE <= |t.db| < MAX_DATA
    requires t.leafIndex != (|t.db| - SINGLE) / PTRS
    requires t.leaves != [] ==> 0 < t.leafBlock < |d| && d[t.leafBlock].ptrs == t.dleaf
    ensures LeavesLaid(Placed(t, b, 0, root, leaf), d)
  {
    hide Holds, LeafStart;
    var t2 := Placed(t, b, 0, root, leaf);
    var o := (|t.db| - SINGLE) / PTRS;
    LeafPlace(|t.db|);
    assert |t.leaves| == o;
    HoldsPut(t.droot, t.leaves, leaf, 0);
    HoldsZeros(t.db, LeafStart(o));
    HoldsPut(seq(PTRS, _ => 0), t.db, b, LeafStart(o));
    forall x | 0 <= x < o ensures 0 < t.leaves[x] < |d| && Holds(d[t.leaves[x]].ptrs, t2.db, LeafStart(x)) {
      LeafStartGrows(x + 1, o);
      LeafStartGrows(x, x);
      HoldsSkip(d[t.leaves[x]].ptrs, t.db, b, LeafStart(x));
    }
  }

  lemma {:induction false} ElemCount(s: seq<nat>)
    requires Distinct(s)
    ensures |Elems(s)| == |s|
  {
    if s == [] {
      assert Elems(s) == {};
    } else {
      var k, last := s[..|s| - 1], s[|s| - 1];
      ElemCount(k);
      assert s == k + [last];
      assert last !in k;
      assert Elems(s) == Elems(k) + {last};
    }
  }

  lemma TakenCount(ind: nat, root: nat, db: seq<nat>, leaves: seq<nat>)
    requires AllDiffer(ind, root, db, leaves)
    ensures |TakenSet(ind, root, db, leaves)| == |db| + |leaves| + One(ind != 0) + One(root != 0)
  {
    ElemCount(db);
    ElemCount(leaves);
    var a, b := Elems(db), Elems(leaves);
    assert a !! b && ind !in a + b && root !in a + b;
    hide Elems, Distinct;
    assert TakenSet(ind, root, db, leaves) == a + b + (if ind != 0 then {ind} else {}) + (if root != 0 then {root} else {});
  }

  /** What the tables claim is what so many data blocks need. */
  lemma ClaimedCount(t: Tables, d: seq<Block>)
    requires LaidOut(t, d)
    ensures |Claimed(t)| == NeedBlocks(|t.db|)
  {
    TakenCount(t.block[12], t.block[13], t.db, t.leaves);
    hide Holds, LeafStart, TakenSet, LeafCount, AllDiffer;
  }

  /** Before a new leaf: one block short of what is needed. */
  lemma OneShort(t: Tables, d: seq<Block>, b: nat, root: nat, held: set<nat>)
    requires LaidOut(t, d) && SINGLE <= |t.db| < MAX_DATA && t.leafIndex != (|t.db| - SINGLE) / PTRS
    requires held == Claimed(t) + {b, root} && b !in Claimed(t) && root != 0
    requires if t.block[13] == 0 then root !in Claimed(t) + {b} else root == t.block[13]
    ensures |held| + 1 == NeedBlocks(|t.db| + 1)
  {
    hide LaidOut, Claimed, NeedBlocks;
    ClaimedCount(t, d);
    SizesOf(t, d);
    SlotsUsed(t);
    NeedLeaf(|t.db|, t.leafIndex);
    if t.block[13] == 0 {
      assert held == Claimed(t) + {b} + {root};
    } else {
      assert held == Claimed(t) + {b};
    }
  }

  lemma NeedLeaf(n: nat, leafIndex: int)
    requires SINGLE <= n < MAX_DATA && leafIndex == LeafCount(n) - 1 != (n - SINGLE) / PTRS
    ensures NeedBlocks(n + 1) == NeedBlocks(n) + 2 + One(n == SINGLE)
  {
    LeafPlace(n);
    hide LeafCount;
  }

  /** Where a table of its own is missing, more than the block in hand is needed. */
  lemma TableShort(t: Tables, d: seq<Block>, b: nat)
    requires LaidOut(t, d) && b !in Claimed(t)
    requires (|t.db| >= 12 && t.block[12] == 0) || (|t.db| >= SINGLE && t.block[13] == 0)
    ensures |Claimed(t) + {b}| < NeedBlocks(|t.db| + 1)
  {
    ClaimedCount(t, d);
    SizesOf(t, d);
    hide LaidOut, Claimed;
  }

  lemma NothingPlaced(t: Tables, d: seq<Block>)
    requires t == Tables(NO_BLOCKS, seq(PTRS, _ => 0), seq(PTRS, _ => 0), seq(PTRS, _ => 0), 0, -1, [], [])
    ensures LaidOut(t, d) && Claimed(t) == {}
  {}

  /** The finished tables, written out, map the file. */
  lemma LaidIsMapped(t: Tables, d: seq<Block>, i: Inode)
    requires LaidOut(t, d) && i.block == t.block
    requires t.block[12] != 0 ==> t.block[12] < |d| && d[t.block[12]].ptrs == t.single
    requires t.block[13] != 0 ==> t.block[13] < |d| && d[t.block[13]].ptrs == t.droot
    requires t.leaves != [] ==> 0 < t.leafBlock < |d| && d[t.leafBlock].ptrs == t.dleaf
    ensures Mapped(d, i, t.db, t.leaves) && Taken(i, t.db, t.leaves) == Claimed(t)
    ensures AllDiffer(i.block[12], i.block[13], t.db, t.leaves)
  {
    hide Holds, LeafStart;
  }

  /** Writing blocks that are no finished leaf leaves the layout as it was. */
  lemma LaidFrame(t: Tables, d: seq<Block>, d2: seq<Block>, w: set<nat>)
    requires LaidOut(t, d) && SameBut(d, d2, w)
    requires forall o | 0 <= o < t.leafIndex :: t.leaves[o] !in w
    ensures LaidOut(t, d2)
  {
    hide Holds, LeafStart;
  }

  // ---- the loop ----

  lemma GoingParts(v: Volume, ctx: AllocCtx, fs0: Fs, t: set<nat>, b: nat)
    requires Going(v, ctx, fs0, t) && b in t
    ensures 0 < b < fs0.geo.blocks && !fs0.geo.IsMeta(b) && b < |v.fs.blk| == |v.dev|
  {}

  /** Write a pointer block that belongs to the transaction. */
  method PutOwn(v: Volume, ctx: AllocCtx, b: nat, ptrs: seq<nat>, ghost fs0: Fs, ghost t: set<nat>)
    requires Going(v, ctx, fs0, t) && b in t && |ptrs| == PTRS
    modifies v`dev, v`fs
    ensures Going(v, ctx, fs0, t) && SameBut(old(v.fs.blk), v.fs.blk, {b})
    ensures b < |v.fs.blk| && v.fs.blk[b].ptrs == ptrs
  {
    hide Stored, Counters, Geo.IsMeta, Geo.Valid, FreeFor, MetaTaken, SuperIs, DescIs, Shape, Alloc, Clear, Total;
    GoingParts(v, ctx, fs0, t, b);
    ghost var f, p := v.fs, ctx.Pending(v);
    v.PutPtrs(b, ptrs);
    BitsSetOver(f, p, v.fs.blk, t);
    LoadedOver(v.sb, v.gd, p);
    assert ctx.Pending(v) == p.(blk := v.fs.blk);
  }

  lemma BitsSetOver(f: Fs, p: Fs, blk2: seq<Block>, t: set<nat>)
    requires BitsSet(f, p, t, true) && |blk2| == |f.blk|
    ensures BitsSet(f.(blk := blk2), p.(blk := blk2), t, true)
  {}

  /** The local variables of the loop. */
  class FileMap {
    var block: seq<nat>
    var single: seq<nat>
    var droot: seq<nat>
    var dleaf: seq<nat>
    var leafBlock: nat
    var leafIndex: int
    var allocatedBlocks: nat
    var db: seq<nat>
    ghost var leaves: seq<nat>

    ghost function T(): Tables
      reads this
    {
      Tables(block, single, droot, dleaf, leafBlock, leafIndex, db, leaves)
    }

    ghost predicate Good(v: Volume, ctx: AllocCtx, fs0: Fs)
      reads this, v, ctx
    {
      && LaidOut(T(), v.fs.blk)
      && Going(v, ctx, fs0, Claimed(T()))
      && allocatedBlocks == |Claimed(T())|
    }

    constructor ()
      ensures T() == Tables(NO_BLOCKS, seq(PTRS, _ => 0), seq(PTRS, _ => 0), seq(PTRS, _ => 0), 0, -1, [], [])
      ensures allocatedBlocks == 0
    {
      block, single, droot, dleaf := NO_BLOCKS, seq(PTRS, _ => 0), seq(PTRS, _ => 0), seq(PTRS, _ => 0);
      leafBlock, leafIndex, allocatedBlocks, db := 0, -1, 0, [];
      leaves := [];
    }

    /** File the next data block, allocating pointer blocks as they become necessary. */
    method Place(v: Volume, ctx: AllocCtx, b: nat, ghost fs0: Fs) returns (ok: bool)
      requires LaidOut(T(), v.fs.blk) && |db| < MAX_DATA
      requires BlockCounts0(fs0) && Going(v, ctx, fs0, Claimed(T()) + {b}) && b !in Claimed(T()) && allocatedBlocks == |Claimed(T())| + 1
      modifies this, ctx, v`dev, v`fs, v`sb, v`gd
      ensures ok ==> Good(v, ctx, fs0) && db == old(db) + [b]
      ensures !ok ==> fs0.totB < NeedBlocks(|old(db)| + 1)
    {
      hide LaidOut, Going, Claimed;
      assert |block| == 15 by { SizesOf(T(), v.fs.blk); }
      if |db| < 12 {
        PlaceDirect(v, ctx, b, fs0);
        ok := true;
      } else if |db| < SINGLE {
        ok := PlaceSingle(v, ctx, b, fs0);
      } else {
        ok := PlaceDouble(v, ctx, b, fs0);
      }
    }

    method PlaceDirect(v: Volume, ctx: AllocCtx, b: nat, ghost fs0: Fs)
      requires LaidOut(T(), v.fs.blk) && |db| < 12
      requires BlockCounts0(fs0) && Going(v, ctx, fs0, Claimed(T()) + {b}) && b !in Claimed(T()) && allocatedBlocks == |Claimed(T())| + 1
      modifies this
      ensures Good(v, ctx, fs0) && db == old(db) + [b]
    {
      hide LaidOut, Going, Claimed, NeedBlocks;
      ghost var t := T();
      SizesOf(t, v.fs.blk);
      GoingParts(v, ctx, fs0, Claimed(t) + {b}, b);
      DirectPlaced(t, v.fs.blk, b);
      block := block[|db| := b];
      db := db + [b];
      assert T() == Placed(t, b, 0, 0, 0);
    }

    method PlaceSingle(v: Volume, ctx: AllocCtx, b: nat, ghost fs0: Fs) returns (ok: bool)
      requires LaidOut(T(), v.fs.blk) && 12 <= |db| < SINGLE
      requires BlockCounts0(fs0) && Going(v, ctx, fs0, Claimed(T()) + {b}) && b !in Claimed(T()) && allocatedBlocks == |Claimed(T())| + 1
      modifies this, ctx, v`sb, v`gd
      ensures ok ==> Good(v, ctx, fs0) && db == old(db) + [b]
      ensures !ok ==> fs0.totB < NeedBlocks(|old(db)| + 1)
    {
      hide LaidOut, Going, Claimed, NeedBlocks, BlockCounts0;
      ghost var t := T();
      SizesOf(t, v.fs.blk);
      GoingParts(v, ctx, fs0, Claimed(t) + {b}, b);
      ghost var held := Claimed(t) + {b};
      if block[12] == 0 {
        var x := AllocFor(v, ctx, fs0, held);
        if x == 0 {
          TableShort(t, v.fs.blk, b);
          return false;
        }
        block := block[12 := x];
        allocatedBlocks := allocatedBlocks + 1;
        held := held + {x};
      } else {
        assert block[12] in Claimed(t) by { SlotsUsed(t); }
      }
      ghost var ind := block[12];
      SinglePlaced(t, v.fs.blk, b, ind);
      single := single[|db| - 12 := b];
      db := db + [b];
      assert T() == Placed(t, b, ind, 0, 0);
      assert held == Claimed(t) + {b, ind};
      return true;
    }

    method PlaceDouble(v: Volume, ctx: AllocCtx, b: nat, ghost fs0: Fs) returns (ok: bool)
      requires LaidOut(T(), v.fs.blk) && SINGLE <= |db| < MAX_DATA
      requires BlockCounts0(fs0) && Going(v, ctx, fs0, Claimed(T()) + {b}) && b !in Claimed(T()) && allocatedBlocks == |Claimed(T())| + 1
      modifies this, ctx, v`dev, v`fs, v`sb, v`gd
      ensures ok ==> Good(v, ctx, fs0) && db == old(db) + [b]
      ensures !ok ==> fs0.totB < NeedBlocks(|old(db)| + 1)
    {
      hide LaidOut, Going, Claimed, NeedBlocks, LeafCount, BlockCounts0, Shape, BlockCounts, Geo.IsMeta, Geo.Valid;
      ghost var t := T();
      SizesOf(t, v.fs.blk);
      SlotsUsed(t);
      GoingParts(v, ctx, fs0, Claimed(t) + {b}, b);
      LeafPlace(|db|);
      var rel := |db| - SINGLE;
      var outer, inner := rel / PTRS, rel % PTRS;
      ghost var held := Claimed(t) + {b};
      if block[13] == 0 {
        var x := AllocFor(v, ctx, fs0, held);
        if x == 0 {
          TableShort(t, v.fs.blk, b);
          return false;
        }
        block := block[13 := x];
        allocatedBlocks := allocatedBlocks + 1;
        held := held + {x};
      }
      if leafIndex != outer {
        ok := NewLeaf(v, ctx, b, outer, inner, fs0, t, held);
      } else {
        dleaf := dleaf[inner := b];
        db := db + [b];
        InnerPlaced(t, v.fs.blk, b, block[13]);
        assert T() == Placed(t, b, 0, block[13], 0);
        assert held == Claimed(t) + {b};
        ok := true;
      }
    }

    /** The leaf being filled goes to disk. */
    method FlushLeaf(v: Volume, ctx: AllocCtx, ghost fs0: Fs, ghost t: Tables, ghost held: set<nat>)
      requires LaidOut(t, v.fs.blk) && t.leaves != [] && Going(v, ctx, fs0, held) && Claimed(t) <= held
      requires leafBlock == t.leafBlock && dleaf == t.dleaf
      modifies v`dev, v`fs
      ensures LaidOut(t, v.fs.blk) && Going(v, ctx, fs0, held)
      ensures 0 < leafBlock < |v.fs.blk| && v.fs.blk[leafBlock].ptrs == dleaf
    {
      hide LaidOut, Going, Claimed;
      SizesOf(t, v.fs.blk);
      SlotsUsed(t);
      LaidFlush(t, v.fs.blk);
      GoingParts(v, ctx, fs0, held, leafBlock);
      ghost var d := v.fs.blk;
      PutOwn(v, ctx, leafBlock, dleaf, fs0, held);
      LaidFrame(t, d, v.fs.blk, {leafBlock});
    }

    /** The tables start a new leaf with block b. */
    method BeginLeaf(b: nat, leaf: nat, outer: nat, inner: nat, ghost t: Tables)
      requires Sized(t) && T() == t.(block := block) && |block| == 15 && block == t.block[13 := block[13]]
      requires SINGLE <= |db| < MAX_DATA && outer == (|db| - SINGLE) / PTRS != leafIndex
      requires inner == (|db| - SINGLE) % PTRS
      modifies this`dleaf, this`leafIndex, this`leafBlock, this`droot, this`leaves, this`db
      ensures T() == Placed(t, b, 0, block[13], leaf) && db == old(db) + [b]
    {
      LeafPlace(|db|);
      dleaf := seq(PTRS, _ => 0);
      leafIndex := outer;
      leafBlock := leaf;
      droot := droot[outer := leaf];
      leaves := leaves + [leaf];
      dleaf := dleaf[inner := b];
      db := db + [b];
    }

    /** Flush the leaf before, take a new one and start it with block b. */
    method NewLeaf(v: Volume, ctx: AllocCtx, b: nat, outer: nat, inner: nat,
                   ghost fs0: Fs, ghost t: Tables, ghost held: set<nat>) returns (ok: bool)
      requires LaidOut(t, v.fs.blk) && T() == t.(block := block) && |t.block| == |block| == 15 && block == t.block[13 := block[13]]
      requires SINGLE <= |db| < MAX_DATA && outer == (|db| - SINGLE) / PTRS != leafIndex
      requires inner == (|db| - SINGLE) % PTRS
      requires Going(v, ctx, fs0, held) && held == Claimed(t) + {b, block[13]} && b !in Claimed(t) && b != 0
      requires block[13] != 0 && (t.block[13] != 0 ==> t.block[13] == block[13])
      requires t.block[13] == 0 ==> block[13] !in Claimed(t) + {b}
      requires allocatedBlocks == |held| && BlockCounts0(fs0)
      modifies this, ctx, v`dev, v`fs, v`sb, v`gd
      ensures ok ==> Good(v, ctx, fs0) && db == old(db) + [b]
      ensures !ok ==> fs0.totB < NeedBlocks(|old(db)| + 1)
    {
      hide LaidOut, Going, Claimed, Placed, NeedBlocks, BlockCounts0, Shape, BlockCounts, Geo.IsMeta, Geo.Valid;
      SizesOf(t, v.fs.blk);
      if leafIndex != -1 {
        FlushLeaf(v, ctx, fs0, t, held);
      }
      var leaf := AllocFor(v, ctx, fs0, held);
      if leaf == 0 {
        OneShort(t, v.fs.blk, b, block[13], held);
        return false;
      }
      OuterPlaced(t, v.fs.blk, b, block[13], leaf);
      allocatedBlocks := allocatedBlocks + 1;
      BeginLeaf(b, leaf, outer, inner, t);
      assert held + {leaf} == Claimed(t) + {b, block[13], leaf};
      return true;
    }
  }

  lemma SizesOf(t: Tables, d: seq<Block>)
    requires LaidOut(t, d)
    ensures Sized(t)
    ensures t.leafIndex == |t.leaves| - 1 && |t.leaves| == LeafCount(|t.db|)
    ensures t.block[12] != 0 <==> |t.db| > 12
    ensures t.block[13] != 0 <==> |t.db| > SINGLE
    ensures t.leaves != [] ==> t.leafBlock == t.leaves[t.leafIndex]
  {}

  lemma SlotsUsed(t: Tables)
    requires |t.block| == 15
    ensures t.block[12] != 0 ==> t.block[12] in Claimed(t)
    ensures t.block[13] != 0 ==> t.block[13] in Claimed(t)
    ensures forall x | x in t.leaves :: x in Claimed(t)
  {}

  lemma LaidFlush(t: Tables, d: seq<Block>)
    requires LaidOut(t, d) && t.leaves != []
    ensures forall o | 0 <= o < t.leafIndex :: t.leaves[o] != t.leafBlock
  {
    hide Holds, LeafStart;
  }
}
