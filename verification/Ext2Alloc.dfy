/** The bitmap allocators: scan-from-zero with write-through, and the cached transaction. */
module Ext2Alloc {
  import opened Ext2Layout
  import opened Ext2State
  import opened Ext2Frames
  import opened Ext2Steps
  import opened Ext2DirSteps
  import opened Ext2Volume
  import opened Ext2Bitmaps
  import opened Ext2Engine

  lemma PlaceOf(g: nat, l: nat)
    requires l < BPG
    ensures (g * BPG + l) / BPG == g && (g * BPG + l) % BPG == l
  {}

  lemma InoOf(g: nat, l: nat)
    requires l < IPG
    ensures (g * IPG + l) / IPG == g && (g * IPG + l) % IPG == l
  {}

  /** Loaded counters follow a flipped block bit. */
  lemma LoadedBit(sb: Super, gd: seq<Group>, fs: Fs, g: nat, l: nat, v: bool)
    requires Loaded(sb, gd, fs) && g < fs.geo.groups && l < BPG && g * BPG + l < fs.geo.blocks
    ensures
      var n := if v then Dec(gd[g].freeBlocks) else Inc16(gd[g].freeBlocks);
      var t := if v then Dec(sb.freeBlocks) else Inc32(sb.freeBlocks);
      Loaded(sb.(freeBlocks := t), gd[g := gd[g].(freeBlocks := n)], WithBit(fs, g * BPG + l, v))
  {
    hide Geo.Valid, Geo.BbLoc, Geo.IbLoc, Geo.ItLoc, Inc16, Inc32, Dec;
    PlaceOf(g, l);
  }

  lemma FlipParts(fs: Fs, g: nat, l: nat, v: bool)
    requires Shape(fs) && g < fs.geo.groups && l < BPG && g * BPG + l < fs.geo.blocks
    ensures var fs2 := WithBit(fs, g * BPG + l, v);
      && fs2 == fs.(bits := fs2.bits, freeB := fs2.freeB, totB := fs2.totB)
      && fs2.bits == fs.bits[g := fs.bits[g][l := v]]
  {
    PlaceOf(g, l);
  }

  lemma InGroups(geo: Geo, b: nat)
    requires geo.Valid() && b < geo.blocks
    ensures b / BPG < geo.groups
  {
    GroupEnds(geo, geo.groups - 1);
  }

  lemma LoadedIBit(sb: Super, gd: seq<Group>, fs: Fs, g: nat, l: nat, v: bool)
    requires Loaded(sb, gd, fs) && g < fs.geo.groups && l < IPG
    ensures g * IPG + l < |fs.inodes|
    ensures
      var n := if v then Dec(gd[g].freeInodes) else Inc16(gd[g].freeInodes);
      var t := if v then Dec(sb.freeInodes) else Inc32(sb.freeInodes);
      Loaded(sb.(freeInodes := t), gd[g := gd[g].(freeInodes := n)], WithIBit(fs, g * IPG + l, v))
  {
    hide Geo.Valid, Geo.BbLoc, Geo.IbLoc, Geo.ItLoc, Inc16, Inc32, Dec;
    InoOf(g, l);
  }

  /** What one group contributes to the choice. */
  lemma PickAt(fs: Fs, g: nat, l: nat)
    requires Shape(fs) && g < fs.geo.groups && l <= fs.geo.GroupBlocks(g)
    requires (forall x | 0 <= x < l :: fs.bits[g][x]) && (l < fs.geo.GroupBlocks(g) ==> !fs.bits[g][l])
    ensures l == fs.geo.GroupBlocks(g) ==> Pick(fs, g) == Pick(fs, g + 1)
    ensures fs.freeB[g] != 0 && l < fs.geo.GroupBlocks(g) ==> Pick(fs, g) == g * BPG + l < fs.geo.blocks
    ensures l < fs.geo.GroupBlocks(g) && Alloc(fs, 0) ==> g * BPG + l != 0
  {
    FirstClearUnique(fs.bits[g], 0, fs.geo.GroupBlocks(g), l);
    GroupEnds(fs.geo, g);
  }

  lemma PickSkip(fs: Fs, g: nat)
    requires Shape(fs) && g < fs.geo.groups && fs.freeB[g] == 0
    ensures Pick(fs, g) == Pick(fs, g + 1)
  {}

  /** The scan of one bitmap. */
  method NextClear(bb: seq<bool>, start: nat, end: nat) returns (l: nat)
    requires start <= end <= |bb|
    ensures start <= l <= end && (forall x | start <= x < l :: bb[x]) && (l < end ==> !bb[l])
  {
    l := start;
    while l < end && bb[l]
      invariant start <= l <= end && forall x | start <= x < l :: bb[x]
    {
      l := l + 1;
    }
  }

  /** ext2_alloc_block */
  method AllocBlock(v: Volume) returns (r: nat)
    requires v.Synced() && Alloc(v.fs, 0)
    modifies v`dev, v`sb, v`gd, v`fs
    ensures v.Synced()
    ensures r == Pick(old(v.fs), 0)
    ensures r == 0 ==> v.fs == old(v.fs)
    ensures r != 0 ==> r < old(v.fs).geo.blocks && v.fs == WithBit(old(v.fs), r, true)
  {
    hide Pick, Geo.Valid, Geo.BbLoc, Geo.IbLoc, Geo.ItLoc, Geo.GroupBlocks, InoLoc, WithBit;
    var g := 0;
    while g < |v.gd|
      invariant 0 <= g <= |v.gd|
      invariant v.Synced() && v.fs == old(v.fs)
      invariant Pick(v.fs, 0) == Pick(v.fs, g)
    {
      if v.gd[g].freeBlocks != 0 {
        var bb := v.dev[v.gd[g].blockBitmap].bits;
        var groupBlocks := GroupBlockCount(v, g);
        var local := NextClear(bb, 0, groupBlocks);
        PickAt(v.fs, g, local);
        if local < groupBlocks {
          TakeHere(v, g, local, bb);
          return g * BPG + local;
        }
      } else {
        PickSkip(v.fs, g);
      }
      g := g + 1;
    }
    assert Pick(v.fs, g) == 0 by { PickEnd(v.fs); }
    return 0;
  }

  lemma PickEnd(fs: Fs)
    requires Shape(fs)
    ensures Pick(fs, fs.geo.groups) == 0
  {}

  /** ext2_group_block_count */
  method GroupBlockCount(v: Volume, g: nat) returns (n: nat)
    requires v.fs.geo.Valid() && v.sb.blocksCount == v.fs.geo.blocks && g < v.fs.geo.groups
    ensures g * BPG <= v.fs.geo.blocks && n == v.fs.geo.GroupBlocks(g) <= BPG
  {
    GroupEnds(v.fs.geo, g);
    var first := g * BPG;
    n := 0;
    if first < v.sb.blocksCount {
      var left := v.sb.blocksCount - first;
      n := if left > BPG then BPG else left;
    }
  }

  /** Mark one block, count it, write bitmap and metadata through. */
  method TakeHere(v: Volume, g: nat, local: nat, bb: seq<bool>)
    requires v.Synced() && g < |v.gd| && local < BPG && g * BPG + local < v.fs.geo.blocks
    requires bb == v.fs.bits[g]
    modifies v`dev, v`sb, v`gd, v`fs
    ensures v.Synced() && v.fs == WithBit(old(v.fs), g * BPG + local, true)
  {
    ghost var fs0, dev0 := v.fs, v.dev;
    Zones(fs0.geo, g, g, 0);
    v.PutBits(v.gd[g].blockBitmap, bb[local := true]);
    BitmapWritten(dev0, fs0, g, v.dev);
    LoadedBit(v.sb, v.gd, fs0, g, local, true);
    v.gd := v.gd[g := v.gd[g].(freeBlocks := Dec(v.gd[g].freeBlocks))];
    v.sb := v.sb.(freeBlocks := Dec(v.sb.freeBlocks));
    ghost var fs2 := WithBit(fs0, g * BPG + local, true);
    ghost var dev1 := v.dev;
    EnoughBlocks(fs0);
    v.StoreMeta();
    PlaceOf(g, local);
    CountersWritten(dev1, fs0.(bits := fs2.bits), v.sb, v.gd, fs2, v.dev);
    v.fs := fs2;
  }

  lemma EnoughBlocks(fs: Fs)
    requires Shape(fs)
    ensures fs.geo.GdtBlocks() < fs.geo.blocks
  {
    GroupEnds(fs.geo, 0);
  }

  /** An inode that ext2_alloc_inode looks at: the root's or not reserved, in a group that counts a free one. */
  ghost predicate Offered(fs: Fs, k: nat)
    requires Shape(fs)
  {
    k < |fs.inodes| && (k == 1 || k >= 10) && fs.freeI[k / IPG] != 0
  }

  /** The scan of one inode bitmap; base is the number of inodes before the group. */
  method NextInode(ib: seq<bool>, base: nat, total: nat) returns (local: nat)
    requires |ib| == BPG && base + IPG <= total
    ensures local <= IPG && forall x: nat | x < local && (base + x == 1 || base + x >= 10) :: ib[x]
    ensures local < IPG ==> !ib[local] && (base + local == 1 || base + local >= 10)
  {
    local := 0;
    while local < IPG
      invariant local <= IPG && forall x: nat | x < local && (base + x == 1 || base + x >= 10) :: ib[x]
    {
      var ino := base + local + 1;
      if ino > total { break; }
      if (ino >= 11 || ino == 2) && !ib[local] { return local; }
      local := local + 1;
    }
  }

  lemma InodeBits(fs: Fs, g: nat, local: nat)
    requires Shape(fs) && g < fs.geo.groups && local <= IPG
    requires forall x: nat | x < local && (g * IPG + x == 1 || g * IPG + x >= 10) :: fs.ibits[g][x]
    requires forall k: nat | Offered(fs, k) && k < g * IPG :: IAlloc(fs, k)
    ensures forall k: nat | Offered(fs, k) && k < g * IPG + local :: IAlloc(fs, k)
  {
    hide Geo.Valid;
    forall k: nat | Offered(fs, k) && g * IPG <= k < g * IPG + local ensures IAlloc(fs, k) {
      InoOf(g, k - g * IPG);
    }
  }

  lemma NoneOffered(fs: Fs, g: nat)
    requires Shape(fs) && g < fs.geo.groups && fs.freeI[g] == 0
    ensures forall k: nat | Offered(fs, k) && k < g * IPG + IPG :: k < g * IPG
  {}

  lemma InodeTableFacts(v: Volume, g: nat)
    requires v.Synced() && g < |v.gd|
    ensures Shape(v.fs) && |v.gd| == v.fs.geo.groups && g * IPG + IPG <= v.sb.inodesCount == |v.fs.inodes|
    ensures v.gd[g].freeInodes == v.fs.freeI[g] && v.gd[g].inodeBitmap < |v.dev|
    ensures v.dev[v.gd[g].inodeBitmap].bits == v.fs.ibits[g]
  {
    Zones(v.fs.geo, g, g, 0);
  }

  lemma AllOffered(v: Volume)
    requires v.Synced()
    ensures Shape(v.fs) && forall k: nat | Offered(v.fs, k) :: k < |v.gd| * IPG
  {}

  /** ext2_alloc_inode: the first free inode of a group that counts one, 0 if there is none. */
  method AllocInode(v: Volume) returns (ino: nat)
    requires v.Synced()
    modifies v`dev, v`sb, v`gd, v`fs
    ensures v.Synced()
    ensures ino == 0 ==> v.fs == old(v.fs)
    ensures ino != 0 ==> ino - 1 < |old(v.fs).inodes| && (ino == 2 || ino >= 11) && !IAlloc(old(v.fs), ino - 1)
    ensures ino != 0 ==> v.fs == WithIBit(old(v.fs), ino - 1, true)
    ensures forall k: nat | Offered(old(v.fs), k) && (ino == 0 || k < ino - 1) :: IAlloc(old(v.fs), k)
  {
    hide Rep, Loaded, WithIBit, Offered, IAlloc, Shape;
    AllOffered(v);
    ghost var fs0 := v.fs;
    var g := 0;
    while g < |v.gd|
      invariant 0 <= g <= |v.gd|
      invariant v.Synced() && v.fs == fs0 && Shape(fs0)
      invariant forall k: nat | Offered(fs0, k) && k < g * IPG :: IAlloc(fs0, k)
    {
      InodeTableFacts(v, g);
      if v.gd[g].freeInodes != 0 {
        var ib := v.dev[v.gd[g].inodeBitmap].bits;
        var local := NextInode(ib, g * IPG, v.sb.inodesCount);
        InodeBits(fs0, g, local);
        if local < IPG {
          TakenAt(fs0, g, local);
          MarkInode(v, g, local, ib, true);
          return g * IPG + local + 1;
        }
      } else {
        NoneOffered(fs0, g);
      }
      g := g + 1;
    }
    AllOffered(v);
    return 0;
  }

  lemma TakenAt(fs: Fs, g: nat, local: nat)
    requires Shape(fs) && g < fs.geo.groups && local < IPG
    ensures g * IPG + local < |fs.inodes| && IAlloc(fs, g * IPG + local) == fs.ibits[g][local]
  {
    InoOf(g, local);
  }

  /** Flip one inode bit, count it, write bitmap and metadata through. */
  method MarkInode(v: Volume, g: nat, local: nat, ib: seq<bool>, taken: bool)
    requires v.Synced() && g < |v.gd| && local < IPG && ib == v.fs.ibits[g]
    modifies v`dev, v`sb, v`gd, v`fs
    ensures g * IPG + local < |old(v.fs).inodes|
    ensures v.Synced() && v.fs == WithIBit(old(v.fs), g * IPG + local, taken)
  {
    ghost var fs0, dev0 := v.fs, v.dev;
    Zones(fs0.geo, g, g, 0);
    v.PutBits(v.gd[g].inodeBitmap, ib[local := taken]);
    IBitmapWritten(dev0, fs0, g, v.dev);
    LoadedIBit(v.sb, v.gd, fs0, g, local, taken);
    v.gd := v.gd[g := v.gd[g].(freeInodes := if taken then Dec(v.gd[g].freeInodes) else Inc16(v.gd[g].freeInodes))];
    v.sb := v.sb.(freeInodes := if taken then Dec(v.sb.freeInodes) else Inc32(v.sb.freeInodes));
    ghost var fs2 := WithIBit(fs0, g * IPG + local, taken);
    ghost var dev1 := v.dev;
    EnoughBlocks(fs0);
    v.StoreMeta();
    InoOf(g, local);
    CountersWritten(dev1, fs0.(ibits := fs2.ibits), v.sb, v.gd, fs2, v.dev);
    v.fs := fs2;
  }

  /** ext2_free_inode_num */
  method FreeInode(v: Volume, ino: nat) returns (ok: bool)
    requires v.Synced()
    modifies v`dev, v`sb, v`gd, v`fs
    ensures v.Synced()
    ensures ok <==> 1 <= ino <= old(v.fs).geo.Inodes()
    ensures ok ==> v.fs == if IAlloc(old(v.fs), ino - 1) then WithIBit(old(v.fs), ino - 1, false) else old(v.fs)
    ensures !ok ==> v.fs == old(v.fs)
  {
    if ino == 0 || ino > v.sb.inodesCount { return false; }
    var g, local := (ino - 1) / IPG, (ino - 1) % IPG;
    Zones(v.fs.geo, g, g, 0);
    var ib := v.dev[v.gd[g].inodeBitmap].bits;
    if ib[local] {
      MarkInode(v, g, local, ib, false);
    }
    return true;
  }

  // ---- the allocation transaction ----

  lemma BitmapHome(dev: seq<Block>, fs: Fs, sb: Super, gd: seq<Group>, fs2: Fs, g: nat)
    requires Rep(dev, fs) && Loaded(sb, gd, fs2) && fs2.geo == fs.geo && g < fs.geo.groups
    ensures gd[g].blockBitmap == fs.geo.BbLoc(g) < |dev|
  {}

  lemma CountersCarry(dev: seq<Block>, fs: Fs, fs2: Fs)
    requires Shape(fs) && Counters(dev, fs) && Shape(fs2) && fs2 == fs.(bits := fs2.bits)
    ensures Counters(dev, fs2)
  {}

  lemma DeviceHolds(dev: seq<Block>, fs: Fs)
    requires Rep(dev, fs)
    ensures fs.geo.blocks <= |dev|
  {}

  datatype Marks = Marks(bits: seq<seq<bool>>, freeB: seq<nat>, totB: nat)

  /** ext2_alloc_ctx: bitmaps cached in memory, written once at commit. */
  class AllocCtx {
    var bitmaps: seq<seq<bool>>
    var cursor: seq<nat>
    var loaded: seq<bool>
    var dirty: seq<bool>
    ghost var marks: Marks

    /** The state a commit would leave on disk. */
    ghost function Pending(v: Volume): Fs
      reads this`marks, v`fs
    {
      v.fs.(bits := marks.bits, freeB := marks.freeB, totB := marks.totB)
    }

    ghost predicate Ready(v: Volume)
      reads this, v
    {
      && Rep(v.dev, v.fs) && Loaded(v.sb, v.gd, Pending(v))
      && |bitmaps| == |loaded| == |dirty| == |cursor| == v.fs.geo.groups
      && (forall g | 0 <= g < |bitmaps| :: loaded[g] ==> bitmaps[g] == marks.bits[g])
      && (forall g | 0 <= g < |bitmaps| :: dirty[g] ==> loaded[g])
      && (forall g | 0 <= g < |bitmaps| :: !dirty[g] ==> marks.bits[g] == v.fs.bits[g])
    }

    /** Every bit below a group's cursor is set. */
    ghost predicate CursorsBehind()
      reads this
    {
      forall g, l | 0 <= g < |cursor| && g < |marks.bits| && 0 <= l < cursor[g] && l < |marks.bits[g]| :: marks.bits[g][l]
    }

    constructor (v: Volume)
      requires v.Synced()
      ensures Ready(v) && CursorsBehind() && Pending(v) == v.fs
    {
      bitmaps := seq(|v.gd|, _ => []);
      cursor := seq(|v.gd|, _ => 0);
      loaded := seq(|v.gd|, _ => false);
      dirty := seq(|v.gd|, _ => false);
      marks := Marks(v.fs.bits, v.fs.freeB, v.fs.totB);
    }

    /** Bring a group's bitmap into memory. */
    method Load(v: Volume, g: nat)
      requires Ready(v) && g < |v.gd|
      modifies this`bitmaps, this`loaded
      ensures Ready(v) && loaded[g] && Pending(v) == old(Pending(v)) && bitmaps[g] == marks.bits[g]
    {
      if !loaded[g] {
        bitmaps := bitmaps[g := v.dev[v.gd[g].blockBitmap].bits];
        loaded := loaded[g := true];
      }
    }

    /** ext2_alloc_block_ctx: the same choice as AllocBlock, without touching the disk. */
    method AllocBlock(v: Volume) returns (r: nat)
      requires Ready(v) && CursorsBehind() && Alloc(Pending(v), 0)
      modifies this, v`sb, v`gd
      ensures Ready(v) && CursorsBehind()
      ensures r == Pick(old(Pending(v)), 0)
      ensures r == 0 ==> Pending(v) == old(Pending(v))
      ensures r != 0 ==> r < v.fs.geo.blocks && Pending(v) == WithBit(old(Pending(v)), r, true)
    {
      hide Rep, Loaded, Shape, Alloc, Pick, Geo.Valid, Geo.GroupBlocks, WithBit;
      ghost var fs0 := Pending(v);
      Sizes(v);
      var g := 0;
      while g < |v.gd|
        invariant 0 <= g <= |v.gd|
        invariant Ready(v) && CursorsBehind() && Pending(v) == fs0 && Shape(fs0) && |v.gd| == fs0.geo.groups
        invariant Pick(fs0, 0) == Pick(fs0, g)
      {
        Sizes(v);
        if v.gd[g].freeBlocks != 0 {
          Load(v, g);
          var groupBlocks := GroupBlockCount(v, g);
          var local := cursor[g];
          if local > groupBlocks { local := groupBlocks; }
          local := NextClear(bitmaps[g], local, groupBlocks);
          PickAt(fs0, g, local);
          if local < groupBlocks {
            Take(v, g, local);
            return g * BPG + local;
          }
          cursor := cursor[g := groupBlocks];
        } else {
          PickSkip(fs0, g);
        }
        g := g + 1;
      }
      assert Pick(fs0, g) == 0 by { PickEnd(fs0); }
      return 0;
    }

    lemma Sizes(v: Volume)
      requires Ready(v)
      ensures Shape(Pending(v)) && |v.gd| == |marks.bits| == |v.gd| == v.fs.geo.groups && v.sb.blocksCount == v.fs.geo.blocks
      ensures forall g | 0 <= g < |marks.bits| :: |marks.bits[g]| == BPG
      ensures v.fs.geo.Valid() && |marks.freeB| == |v.gd| && forall g | 0 <= g < |v.gd| :: v.gd[g].freeBlocks == marks.freeB[g]
    {}

    /** Flip one bit of a loaded bitmap and count it. */
    method Flip(v: Volume, g: nat, local: nat, taken: bool)
      requires Ready(v) && g < |v.gd| && loaded[g] && local < BPG && g * BPG + local < v.fs.geo.blocks
      modifies this`bitmaps, this`dirty, this`marks, v`sb, v`gd
      ensures Ready(v) && Pending(v) == WithBit(old(Pending(v)), g * BPG + local, taken)
      ensures marks.bits == old(marks).bits[g := old(marks).bits[g][local := taken]]
      ensures v.gd[g].freeBlocks == if taken then Dec(old(v.gd)[g].freeBlocks) else Inc16(old(v.gd)[g].freeBlocks)
    {
      hide Rep, Loaded, WithBit, Shape, Geo.Valid, Inc16, Inc32, Dec;
      Sizes(v);
      ghost var fs2 := WithBit(Pending(v), g * BPG + local, taken);
      LoadedBit(v.sb, v.gd, Pending(v), g, local, taken);
      FlipParts(Pending(v), g, local, taken);
      bitmaps := bitmaps[g := bitmaps[g][local := taken]];
      dirty := dirty[g := true];
      v.gd := v.gd[g := v.gd[g].(freeBlocks := if taken then Dec(v.gd[g].freeBlocks) else Inc16(v.gd[g].freeBlocks))];
      v.sb := v.sb.(freeBlocks := if taken then Dec(v.sb.freeBlocks) else Inc32(v.sb.freeBlocks));
      marks := Marks(fs2.bits, fs2.freeB, fs2.totB);
      assert Pending(v) == fs2;
    }

    /** Mark one block in the cached bitmap. */
    method Take(v: Volume, g: nat, local: nat)
      requires Ready(v) && CursorsBehind() && g < |v.gd| && loaded[g]
      requires local < BPG && g * BPG + local < v.fs.geo.blocks
      requires forall x | 0 <= x < local :: bitmaps[g][x]
      modifies this, v`sb, v`gd
      ensures Ready(v) && CursorsBehind() && Pending(v) == WithBit(old(Pending(v)), g * BPG + local, true)
    {
      hide Rep, Loaded, WithBit, Shape, Geo.Valid;
      Sizes(v);
      Flip(v, g, local, true);
      cursor := cursor[g := local + 1];
    }

    /** ext2_free_block_ctx */
    method FreeBlock(v: Volume, block: nat) returns (ok: bool)
      requires Ready(v)
      modifies this`bitmaps, this`loaded, this`dirty, this`marks, v`sb, v`gd
      ensures Ready(v)
      ensures ok <==> 0 < block < v.fs.geo.blocks
      ensures !ok ==> Pending(v) == old(Pending(v))
      ensures ok && Alloc(old(Pending(v)), block) ==> Pending(v) == WithBit(old(Pending(v)), block, false)
      ensures ok && !Alloc(old(Pending(v)), block) ==> Pending(v) == old(Pending(v))
    {
      hide Rep, Loaded, WithBit, Shape;
      Sizes(v);
      if block == 0 || block >= v.sb.blocksCount { return false; }
      var g, local := block / BPG, block % BPG;
      assert g < |v.gd| by { InGroups(v.fs.geo, block); }
      Load(v, g);
      if bitmaps[g][local] { Flip(v, g, local, false); }
      return true;
    }

    /** ext2_alloc_ctx_commit: dirty bitmaps, then superblock and descriptors. */
    method Commit(v: Volume)
      requires Ready(v)
      modifies v`dev, v`fs
      ensures v.Synced() && v.fs == old(Pending(v))
    {
      hide Stored, Counters, Geo.Valid, SuperIs, DescIs;
      ghost var fs0, fs2 := v.fs, Pending(v);
      ghost var cur := fs0;
      var g := 0;
      while g < |v.gd|
        invariant 0 <= g <= |v.gd|
        invariant v.fs == fs0 && Rep(v.dev, cur) && cur == fs0.(bits := cur.bits)
        invariant forall x | 0 <= x < |v.gd| :: cur.bits[x] == if x < g then marks.bits[x] else fs0.bits[x]
      {
        if dirty[g] {
          ghost var was := v.dev;
          BitmapHome(v.dev, cur, v.sb, v.gd, fs2, g);
          v.PutBits(v.gd[g].blockBitmap, bitmaps[g]);
          BitmapWritten(was, cur, g, v.dev);
          CountersCarry(v.dev, cur, cur.(bits := cur.bits[g := bitmaps[g]]));
          cur := cur.(bits := cur.bits[g := bitmaps[g]]);
        }
        g := g + 1;
      }
      assert cur.bits == marks.bits;
      EnoughBlocks(fs0);
      FirstPlaces(fs0);
      ghost var dev1 := v.dev;
      assert fs0.geo.blocks <= |v.dev| by { DeviceHolds(v.dev, cur); }
      v.StoreMeta();
      CountersWritten(dev1, cur, v.sb, v.gd, fs2, v.dev);
      v.fs := fs2;
    }
  }
}
