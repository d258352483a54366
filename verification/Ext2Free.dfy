/** The freeing walk, and the reader. */
module Ext2Free {
  import opened Ext2Layout
  import opened Ext2State
  import opened Ext2Frames
  import opened Ext2Steps
  import Ext2DirSteps
  import opened Ext2Volume
  import opened Ext2Bitmaps
  import opened Ext2Engine
  import opened Ext2Alloc

  /** Every block the walk meets is a block of the data area. */
  ghost predicate TreeInData(fs: Fs, i: Inode)
    requires Shape(fs)
  {
    forall b: nat :: SlotsCnt(fs.blk, i, b, 15) > 0 ==> InData(fs, b)
  }

  ghost predicate InData(fs: Fs, b: nat)
    requires Shape(fs)
  {
    0 < b < fs.geo.blocks && !fs.geo.IsMeta(b)
  }

  ghost function TreeBlocks(fs: Fs, i: Inode): set<nat>
    requires Shape(fs)
  {
    set b: nat | b < fs.geo.blocks && SlotsCnt(fs.blk, i, b, 15) > 0
  }

  /** A freeing transaction that has cleared exactly the bits of t so far. */
  ghost predicate Freeing(v: Volume, ctx: AllocCtx, fs0: Fs, t: set<nat>)
    reads v, ctx
  {
    ctx.Ready(v) && v.fs == fs0 && BitsSet(fs0, ctx.Pending(v), t, false)
  }

  lemma FreeStep(f: Fs, p: Fs, t: set<nat>, b: nat)
    requires BitsSet(f, p, t, false) && b < f.geo.blocks
    ensures Alloc(p, b) ==> BitsSet(f, WithBit(p, b, false), t + {b}, false)
    ensures !Alloc(p, b) ==> BitsSet(f, p, t + {b}, false)
  {
    hide WithBit, Geo.Valid;
    if Alloc(p, b) {
      WithBitSets(p, b, false);
    } else {
      forall g, l | 0 <= g < f.geo.groups && 0 <= l < BPG
        ensures p.bits[g][l] == if g * BPG + l in t + {b} then false else f.bits[g][l]
      {
        if g * BPG + l == b { PlaceOf(g, l); }
      }
    }
  }

  /** FREE_CTX_BLOCK */
  method FreeIf(v: Volume, ctx: AllocCtx, b: nat, ghost fs0: Fs, ghost t: set<nat>) returns (ok: bool, ghost t2: set<nat>)
    requires Freeing(v, ctx, fs0, t) && (b != 0 ==> InData(fs0, b))
    modifies ctx, v`sb, v`gd
    ensures ok && t2 == (if b == 0 then t else t + {b}) && Freeing(v, ctx, fs0, t2)
  {
    hide Stored, Counters, Loaded, WithBit, Geo.IsMeta, Geo.Valid;
    t2, ok := t, true;
    if b != 0 {
      FreeStep(fs0, ctx.Pending(v), t, b);
      ok := ctx.FreeBlock(v, b);
      t2 := t + {b};
    }
  }

  /** t2 is t and what the walk meets in the first n pointers. */
  ghost predicate PlusPtrs(d: seq<Block>, ptrs: seq<nat>, depth: nat, n: nat, t: set<nat>, t2: set<nat>)
    requires n <= |ptrs|
  {
    forall b: nat :: b in t2 <==> b in t || PtrsCnt(d, ptrs, depth, b, n) > 0
  }

  ghost predicate PtrsInData(fs: Fs, ptrs: seq<nat>, depth: nat)
    requires Shape(fs)
  {
    forall b: nat :: PtrsCnt(fs.blk, ptrs, depth, b, |ptrs|) > 0 ==> InData(fs, b)
  }

  lemma PtrMet(d: seq<Block>, ptrs: seq<nat>, depth: nat, j: nat, b: nat)
    requires j < |ptrs|
    ensures WalkCnt(d, ptrs[j], depth, b) <= PtrsCnt(d, ptrs, depth, b, |ptrs|)
    ensures ptrs[j] != 0 ==> WalkCnt(d, ptrs[j], depth, ptrs[j]) >= 1
  {
    PtrCounts(d, ptrs, depth, b, j, |ptrs|);
  }

  /** Free the data blocks a pointer block names. */
  method FreePtrs(v: Volume, ctx: AllocCtx, ptrs: seq<nat>, ghost fs0: Fs, ghost t: set<nat>)
    returns (ok: bool, ghost t2: set<nat>)
    requires Freeing(v, ctx, fs0, t) && |ptrs| == PTRS && PtrsInData(fs0, ptrs, 0)
    modifies ctx, v`sb, v`gd
    ensures ok && Freeing(v, ctx, fs0, t2) && PlusPtrs(fs0.blk, ptrs, 0, PTRS, t, t2)
  {
    hide Freeing, InData;
    t2, ok := t, true;
    var i := 0;
    while i < PTRS && ok
      invariant 0 <= i <= PTRS && ok
      invariant Freeing(v, ctx, fs0, t2) && PlusPtrs(fs0.blk, ptrs, 0, i, t, t2)
    {
      PtrMet(fs0.blk, ptrs, 0, i, ptrs[i]);
      ghost var was := t2;
      ok, t2 := FreeIf(v, ctx, ptrs[i], fs0, t2);
      PlusNext(fs0.blk, ptrs, 0, i, t, was, t2);
      i := i + 1;
    }
  }

  lemma PlusNext(d: seq<Block>, ptrs: seq<nat>, depth: nat, i: nat, t: set<nat>, t2: set<nat>, t3: set<nat>)
    requires i < |ptrs| && PlusPtrs(d, ptrs, depth, i, t, t2)
    requires forall b: nat :: b in t3 <==> b in t2 || WalkCnt(d, ptrs[i], depth, b) > 0
    ensures PlusPtrs(d, ptrs, depth, i + 1, t, t3)
  {
    hide WalkCnt;
  }

  /** t is what the walk meets in the first n slots. */
  ghost predicate MetBySlots(fs: Fs, i: Inode, n: nat, t: set<nat>)
    requires n <= 15
  {
    forall b: nat :: b in t <==> SlotsCnt(fs.blk, i, b, n) > 0
  }

  lemma SlotInData(fs: Fs, i: Inode, j: nat)
    requires Shape(fs) && TreeInData(fs, i) && j < 15 && i.block[j] != 0
    ensures InData(fs, i.block[j]) && i.block[j] < |fs.blk|
    ensures Depth(j) > 0 ==> PtrsInData(fs, fs.blk[i.block[j]].ptrs, Depth(j) - 1)
  {
    hide Geo.IsMeta, Geo.Valid;
    SlotCounts(fs.blk, i, i.block[j], j, 15);
    if Depth(j) > 0 {
      forall b: nat | PtrsCnt(fs.blk, fs.blk[i.block[j]].ptrs, Depth(j) - 1, b, PTRS) > 0 ensures InData(fs, b) {
        SlotCounts(fs.blk, i, b, j, 15);
      }
    }
  }

  lemma LeafInData(fs: Fs, ptrs: seq<nat>, j: nat)
    requires Shape(fs) && |ptrs| == PTRS && PtrsInData(fs, ptrs, 1) && j < PTRS && ptrs[j] != 0
    ensures InData(fs, ptrs[j]) && ptrs[j] < |fs.blk|
    ensures PtrsInData(fs, fs.blk[ptrs[j]].ptrs, 0)
  {
    hide Geo.IsMeta, Geo.Valid, PtrsCnt;
    PtrMet(fs.blk, ptrs, 1, j, ptrs[j]);
    forall b: nat | PtrsCnt(fs.blk, fs.blk[ptrs[j]].ptrs, 0, b, PTRS) > 0 ensures InData(fs, b) {
      PtrMet(fs.blk, ptrs, 1, j, b);
    }
  }

  lemma OnDevice(v: Volume, ctx: AllocCtx, fs0: Fs, t: set<nat>, b: nat)
    requires Freeing(v, ctx, fs0, t) && InData(fs0, b)
    ensures b < |v.dev| && v.dev[b] == fs0.blk[b]
  {}

  /** ext2_free_inode_data_blocks */
  method FreeDataBlocks(v: Volume, file: Inode) returns (ok: bool)
    requires v.Synced() && BlockCounts(v.fs) && TreeInData(v.fs, file)
    modifies v`dev, v`fs, v`sb, v`gd
    ensures v.Synced()
    ensures ok <==> file.block[14] == 0
    ensures ok ==> BitsSet(old(v.fs), v.fs, TreeBlocks(old(v.fs), file), false)
    ensures !ok ==> v.fs == old(v.fs)
  {
    hide Freeing, InData, TreeInData, Stored, Counters, BlockCounts, Geo.IsMeta, Geo.Valid;
    if file.block[14] != 0 { return false; }
    ghost var fs0, t := v.fs, {};
    var ctx := new AllocCtx(v);
    NothingFreed(v, ctx);
    ok := true;
    var i := 0;
    while i < 12 && ok
      invariant 0 <= i <= 12 && ok && Freeing(v, ctx, fs0, t) && MetBySlots(fs0, file, i, t)
    {
      if file.block[i] != 0 { SlotInData(fs0, file, i); }
      ok, t := FreeIf(v, ctx, file.block[i], fs0, t);
      i := i + 1;
    }
    if file.block[12] != 0 { t := FreeSingle(v, ctx, file, fs0, t); }
    if file.block[13] != 0 { t := FreeDouble(v, ctx, file, fs0, t); }
    AllMet(fs0, file, t);
    FreedAll(v, ctx, fs0, t);
    ctx.Commit(v);
  }

  lemma NothingFreed(v: Volume, ctx: AllocCtx)
    requires v.Synced() && BlockCounts(v.fs) && ctx.Ready(v) && ctx.Pending(v) == v.fs
    ensures Freeing(v, ctx, v.fs, {})
  {}

  lemma FreedAll(v: Volume, ctx: AllocCtx, fs0: Fs, t: set<nat>)
    requires Freeing(v, ctx, fs0, t)
    ensures ctx.Ready(v) && BitsSet(fs0, ctx.Pending(v), t, false)
  {}

  lemma AllMet(fs: Fs, i: Inode, t: set<nat>)
    requires Shape(fs) && TreeInData(fs, i) && MetBySlots(fs, i, 14, t) && i.block[14] == 0
    ensures t == TreeBlocks(fs, i)
  {
    forall b: nat ensures b in t <==> b in TreeBlocks(fs, i) {
      assert SlotsCnt(fs.blk, i, b, 15) == SlotsCnt(fs.blk, i, b, 14);
      assert SlotsCnt(fs.blk, i, b, 15) > 0 ==> InData(fs, b);
    }
  }

  method FreeSingle(v: Volume, ctx: AllocCtx, file: Inode, ghost fs0: Fs, ghost t: set<nat>) returns (ghost t2: set<nat>)
    requires Freeing(v, ctx, fs0, t) && TreeInData(fs0, file) && file.block[12] != 0
    requires MetBySlots(fs0, file, 12, t)
    modifies ctx, v`sb, v`gd
    ensures Freeing(v, ctx, fs0, t2) && MetBySlots(fs0, file, 13, t2)
  {
    hide Freeing, InData, TreeInData;
    assert Shape(fs0) by { FreeingShape(v, ctx, fs0, t); }
    SlotInData(fs0, file, 12);
    OnDevice(v, ctx, fs0, t, file.block[12]);
    var ok;
    ok, t2 := FreePtrs(v, ctx, v.dev[file.block[12]].ptrs, fs0, t);
    ok, t2 := FreeIf(v, ctx, file.block[12], fs0, t2);
  }

  lemma FreeingShape(v: Volume, ctx: AllocCtx, fs0: Fs, t: set<nat>)
    requires Freeing(v, ctx, fs0, t)
    ensures Shape(fs0)
  {}

  method FreeDouble(v: Volume, ctx: AllocCtx, file: Inode, ghost fs0: Fs, ghost t: set<nat>) returns (ghost t2: set<nat>)
    requires Freeing(v, ctx, fs0, t) && TreeInData(fs0, file) && file.block[13] != 0
    requires MetBySlots(fs0, file, 13, t)
    modifies ctx, v`sb, v`gd
    ensures Freeing(v, ctx, fs0, t2) && MetBySlots(fs0, file, 14, t2)
  {
    hide Freeing, InData, TreeInData, PtrsInData;
    assert Shape(fs0) by { FreeingShape(v, ctx, fs0, t); }
    SlotInData(fs0, file, 13);
    OnDevice(v, ctx, fs0, t, file.block[13]);
    var ptrblk := v.dev[file.block[13]].ptrs;
    t2 := t;
    var ok := true;
    var i := 0;
    while i < PTRS
      invariant 0 <= i <= PTRS && Freeing(v, ctx, fs0, t2)
      invariant PlusPtrs(fs0.blk, ptrblk, 1, i, t, t2)
    {
      var leaf := ptrblk[i];
      ghost var was := t2;
      if leaf != 0 {
        LeafInData(fs0, ptrblk, i);
        OnDevice(v, ctx, fs0, t2, leaf);
        ok, t2 := FreePtrs(v, ctx, v.dev[leaf].ptrs, fs0, t2);
        ok, t2 := FreeIf(v, ctx, leaf, fs0, t2);
      }
      PlusNext(fs0.blk, ptrblk, 1, i, t, was, t2);
      i := i + 1;
    }
    ok, t2 := FreeIf(v, ctx, file.block[13], fs0, t2);
  }

  // ---- reading ----

  /** ext2_read_file_at, once the path is resolved to an inode that is no directory. */
  method ReadFile(v: Volume, file: Inode) returns (ok: bool, out: seq<Byte>)
    requires v.Synced() && TreeInData(v.fs, file)
    ensures ok <==> file.block[14] == 0 && (file.size == 0 || file.size <= (12 + PTRS + PTRS * PTRS) * BS)
    ensures ok ==> out == FileBytes(v.fs.blk, file)
  {
    hide Rep, Loaded, TreeInData, FileByte, PtrOf;
    out := [];
    if file.block[14] != 0 { return false, out; }
    var len := file.size;
    if len == 0 { return true, out; }
    var single := ReadTable(v, file, 12);
    var droot := ReadTable(v, file, 13);
    var dleaf := seq(PTRS, _ => 0);
    var cachedOuter := -1;
    var done := 0;
    while done < len
      invariant 0 <= done <= len && |out| == done && (done < len ==> done % BS == 0)
      invariant done > 0 ==> (done - 1) / BS < 12 + PTRS + PTRS * PTRS
      invariant forall k | 0 <= k < done :: out[k] == FileByte(v.fs.blk, file, k)
      invariant -1 <= cachedOuter < PTRS && |dleaf| == PTRS
      invariant cachedOuter >= 0 ==> IsTable(v.fs.blk, PtrOf(v.fs.blk, file.block[13], cachedOuter), dleaf)
    {
      var lbn := done / BS;
      var diskBlock := 0;
      if lbn < 12 {
        diskBlock := file.block[lbn];
      } else if lbn < 12 + PTRS {
        diskBlock := single[lbn - 12];
      } else {
        var rel := lbn - 12 - PTRS;
        var outer, inner := rel / PTRS, rel % PTRS;
        if outer >= PTRS { return false, out; }
        if cachedOuter != outer {
          dleaf := ReadLeaf(v, file, droot, outer);
          cachedOuter := outer;
        }
        diskBlock := dleaf[inner];
      }
      var chunk := BS;
      if chunk > len - done { chunk := len - done; }
      var piece := ReadPiece(v, file, diskBlock, lbn, chunk);
      out := out + piece;
      done := done + chunk;
    }
    AllBytes(v.fs.blk, file, out);
    return true, out;
  }

  lemma AllBytes(d: seq<Block>, file: Inode, out: seq<Byte>)
    requires |out| == file.size && forall k | 0 <= k < |out| :: out[k] == FileByte(d, file, k)
    ensures out == FileBytes(d, file)
  {
    hide FileByte;
  }

  /** The table holds the pointers of block b, or zeros when there is none. */
  ghost predicate IsTable(d: seq<Block>, b: nat, table: seq<nat>) {
    |table| == PTRS && forall x | 0 <= x < PTRS :: table[x] == PtrOf(d, b, x)
  }

  method ReadTable(v: Volume, file: Inode, j: nat) returns (table: seq<nat>)
    requires v.Synced() && TreeInData(v.fs, file) && j in {12, 13}
    ensures IsTable(v.fs.blk, file.block[j], table)
  {
    table := seq(PTRS, _ => 0);
    if file.block[j] != 0 {
      SlotInData(v.fs, file, j);
      table := v.dev[file.block[j]].ptrs;
    }
  }

  method ReadLeaf(v: Volume, file: Inode, droot: seq<nat>, outer: nat) returns (dleaf: seq<nat>)
    requires v.Synced() && TreeInData(v.fs, file) && |droot| == PTRS && outer < PTRS
    requires droot[outer] == PtrOf(v.fs.blk, file.block[13], outer)
    ensures IsTable(v.fs.blk, PtrOf(v.fs.blk, file.block[13], outer), dleaf)
  {
    dleaf := seq(PTRS, _ => 0);
    var leaf := droot[outer];
    if leaf != 0 {
      SlotInData(v.fs, file, 13);
      LeafInData(v.fs, v.fs.blk[file.block[13]].ptrs, outer);
      dleaf := v.dev[leaf].ptrs;
    }
  }

  method ReadPiece(v: Volume, file: Inode, diskBlock: nat, lbn: nat, chunk: nat) returns (piece: seq<Byte>)
    requires v.Synced() && TreeInData(v.fs, file) && chunk <= BS && diskBlock == BlockAt(v.fs.blk, file, lbn)
    ensures |piece| == chunk && forall k | 0 <= k < chunk :: piece[k] == FileByte(v.fs.blk, file, lbn * BS + k)
  {
    if diskBlock == 0 {
      piece := seq(chunk, _ => 0);
    } else {
      AtInData(v.fs, file, lbn);
      piece := v.dev[diskBlock].data[..chunk];
    }
    forall k | 0 <= k < chunk ensures piece[k] == FileByte(v.fs.blk, file, lbn * BS + k) {
      assert (lbn * BS + k) / BS == lbn && (lbn * BS + k) % BS == k;
    }
  }

  lemma AtInData(fs: Fs, i: Inode, lbn: nat)
    requires Shape(fs) && TreeInData(fs, i) && BlockAt(fs.blk, i, lbn) != 0
    ensures InData(fs, BlockAt(fs.blk, i, lbn))
  {
    var treed: Inode := i.(mode := 8 * 4096);
    PathMet(fs.blk, treed, lbn);
    SameBlockAt(fs.blk, i, treed, lbn);
    Ext2DirSteps.SameSlots(fs.blk, i, treed, BlockAt(fs.blk, i, lbn), 15);
  }

  lemma SameBlockAt(d: seq<Block>, i: Inode, i2: Inode, lbn: nat)
    requires i.block == i2.block
    ensures BlockAt(d, i, lbn) == BlockAt(d, i2, lbn)
  {}
}
