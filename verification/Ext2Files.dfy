/** Writing, freeing and reading the contents of a regular file. */
module Ext2Files {
  import opened Sequences
  import opened Ext2Layout
  import opened Ext2State
  import opened Ext2Frames
  import opened Ext2Steps
  import opened Ext2DirSteps
  import opened Ext2Volume
  import opened Ext2Bitmaps
  import opened Ext2Engine
  import opened Ext2Alloc
  import opened Ext2Write
  import opened Ext2Counts
  import opened Ext2FileMap

  // ---- data runs ----

  /** Byte o of the x-th block of the file: its data, zero past the end. */
  function Padded(data: seq<Byte>, x: nat, o: nat): Byte {
    if x * BS + o < |data| then data[x * BS + o] else 0
  }

  ghost predicate Filled(blk: seq<Block>, data: seq<Byte>, blocks: seq<nat>, n: nat)
    requires n <= |blocks|
  {
    forall x | 0 <= x < n :: blocks[x] < |blk| && BlockIs(blk[blocks[x]], data, x)
  }

  /** The block holds the x-th block of the file. */
  ghost predicate BlockIs(k: Block, data: seq<Byte>, x: nat) {
    forall o | 0 <= o < BS :: k.data[o] == Padded(data, x, o)
  }

  const CHUNK: nat := 64 * 1024 * 1024

  /** ext2_write_data_runs: each maximal run of consecutive block numbers is written in large pieces,
      then padded with zeros. */
  method WriteDataRuns(v: Volume, data: seq<Byte>, blocks: seq<nat>)
    requires v.OnDisk() && Distinct(blocks)
    requires forall b | b in blocks :: b < |v.dev| && !v.fs.geo.IsMeta(b)
    modifies v`dev, v`fs
    ensures v.OnDisk() && v.fs == old(v.fs).(blk := v.fs.blk)
    ensures SameBut(old(v.fs.blk), v.fs.blk, Elems(blocks))
    ensures Filled(v.fs.blk, data, blocks, |blocks|)
  {
    var i := 0;
    while i < |blocks|
      invariant 0 <= i <= |blocks|
      invariant v.OnDisk() && v.fs == old(v.fs).(blk := v.fs.blk) && |v.dev| == |old(v.dev)|
      invariant SameBut(old(v.fs.blk), v.fs.blk, Elems(blocks))
      invariant Filled(v.fs.blk, data, blocks, i)
    {
      var j := i + 1;
      while j < |blocks| && blocks[j] == blocks[j - 1] + 1
        invariant i < j <= |blocks|
        invariant forall x | i <= x < j :: blocks[x] == blocks[i] + (x - i)
      {
        j := j + 1;
      }
      ghost var was := v.fs.blk;
      forall b | InRun(b, blocks[i], j - i) ensures b in blocks {
        assert blocks[i + (b - blocks[i])] == b;
      }
      WriteRun(v, data, blocks[i], i, j - i);
      RunFilled(was, v.fs.blk, data, blocks, i, j);
      i := j;
    }
  }

  predicate InRun(b: nat, first: nat, n: nat) { first <= b < first + n }

  ghost function RunBlocks(first: nat, n: nat): set<nat> { set b: nat | b < first + n && InRun(b, first, n) }

  ghost predicate RunHas(blk: seq<Block>, data: seq<Byte>, first: nat, x0: nat, n: nat) {
    && first + n <= |blk|
    && forall b: nat | InRun(b, first, n) :: BlockIs(blk[b], data, x0 + (b - first))
  }

  lemma RunIndex(blocks: seq<nat>, i: nat, j: nat, b: nat) returns (k: nat)
    requires i < j <= |blocks| && InRun(b, blocks[i], j - i)
    requires forall x | i <= x < j :: blocks[x] == blocks[i] + (x - i)
    ensures i <= k < j && blocks[k] == b
  {
    k := i + (b - blocks[i]);
  }

  lemma RunFilled(was: seq<Block>, blk: seq<Block>, data: seq<Byte>, blocks: seq<nat>, i: nat, j: nat)
    requires i < j <= |blocks| && Distinct(blocks)
    requires forall x | i <= x < j :: blocks[x] == blocks[i] + (x - i)
    requires Filled(was, data, blocks, i) && SameBut(was, blk, RunBlocks(blocks[i], j - i))
    requires RunHas(blk, data, blocks[i], i, j - i)
    ensures Filled(blk, data, blocks, j)
  {
    hide BlockIs;
    forall x | 0 <= x < j ensures blocks[x] < |blk| && BlockIs(blk[blocks[x]], data, x) {
      if x < i {
        if InRun(blocks[x], blocks[i], j - i) {
          var k := RunIndex(blocks, i, j, blocks[x]);
          assert false;
        }
      } else {
        assert InRun(blocks[x], blocks[i], j - i);
      }
    }
  }

  ghost predicate Running(v: Volume, fs0: Fs, data: seq<Byte>, first: nat, x0: nat, n: nat, len: nat)
    reads v
  {
    && v.OnDisk() && v.fs == fs0.(blk := v.fs.blk) && |v.dev| == |fs0.blk|
    && SameBut(fs0.blk, v.fs.blk, RunBlocks(first, n))
    && ByteRun(v.fs.blk, data, first, x0, n, len)
    && (forall b: nat | InRun(b, first, n) :: !fs0.geo.IsMeta(b))
  }

  /** Blocks first, first+1, ... receive file blocks x0, x0+1, ... */
  method WriteRun(v: Volume, data: seq<Byte>, first: nat, x0: nat, n: nat)
    requires v.OnDisk() && n > 0
    requires forall b: nat | InRun(b, first, n) :: b < |v.dev| && !v.fs.geo.IsMeta(b)
    modifies v`dev, v`fs
    ensures v.OnDisk() && v.fs == old(v.fs).(blk := v.fs.blk)
    ensures SameBut(old(v.fs.blk), v.fs.blk, RunBlocks(first, n))
    ensures RunHas(v.fs.blk, data, first, x0, n)
  {
    assert InRun(first + n - 1, first, n) && |v.fs.blk| == |v.dev|;
    ghost var fs0 := v.fs;
    ByteRunStart(v.fs.blk, data, first, x0, n);
    SameButSelf(v.fs.blk, RunBlocks(first, n));
    var filePos := x0 * BS;
    var capacity := n * BS;
    var actual := if filePos < |data| then |data| - filePos else 0;
    if actual > capacity { actual := capacity; }
    var done := 0;
    while done < actual
      invariant 0 <= done <= actual && Running(v, fs0, data, first, x0, n, done)
    {
      var left := actual - done;
      var chunk := if left > CHUNK then CHUNK else left;
      PutPiece(v, data[filePos + done..filePos + done + chunk], data, first, x0, n, done, fs0);
      done := done + chunk;
    }
    if actual < capacity {
      var tail := capacity - actual;
      while tail > 0
        invariant 0 <= tail && actual + tail == capacity && filePos + actual >= |data|
        invariant Running(v, fs0, data, first, x0, n, actual)
      {
        var chunk := if tail > BS then BS else tail;
        PutPiece(v, seq(chunk, _ => 0), data, first, x0, n, actual, fs0);
        actual := actual + chunk;
        tail := tail - chunk;
      }
    }
    RunDone(v.fs.blk, data, first, x0, n);
  }

  /** The first len bytes of the run are what the file has there. */
  ghost predicate ByteRun(blk: seq<Block>, data: seq<Byte>, first: nat, x0: nat, n: nat, len: nat) {
    && first + n <= |blk|
    && forall b: nat, o: nat | InRun(b, first, n) && o < BS && (b - first) * BS + o < len ::
      blk[b].data[o] == Padded(data, x0 + (b - first), o)
  }

  lemma RunDone(blk: seq<Block>, data: seq<Byte>, first: nat, x0: nat, n: nat)
    requires ByteRun(blk, data, first, x0, n, n * BS)
    ensures RunHas(blk, data, first, x0, n)
  {
    forall b: nat | InRun(b, first, n) ensures BlockIs(blk[b], data, x0 + (b - first)) {
      forall o: nat | o < BS ensures blk[b].data[o] == Padded(data, x0 + (b - first), o) {
        assert (b - first) * BS + o < n * BS;
      }
    }
  }

  lemma ByteRunStart(blk: seq<Block>, data: seq<Byte>, first: nat, x0: nat, n: nat)
    requires first + n <= |blk|
    ensures ByteRun(blk, data, first, x0, n, 0)
  {}

  lemma SameButSelf(a: seq<Block>, w: set<nat>)
    ensures SameBut(a, a, w)
  {}

  lemma SameButTrans(a: seq<Block>, b: seq<Block>, c: seq<Block>, w: set<nat>)
    requires SameBut(a, b, w) && SameBut(b, c, w)
    ensures SameBut(a, c, w)
  {}

  ghost predicate Pieced(was: seq<Block>, blk: seq<Block>, abs: nat, src: seq<Byte>) {
    && |was| == |blk|
    && forall b, o | 0 <= b < |blk| && 0 <= o < BS ::
        blk[b].data[o] == if abs <= b * BS + o < abs + |src| then src[b * BS + o - abs] else was[b].data[o]
  }

  /** One byte-addressed write inside the run, done bytes from its start. */
  method PutPiece(v: Volume, src: seq<Byte>, ghost data: seq<Byte>, first: nat, ghost x0: nat, ghost n: nat,
                  done: nat, ghost fs0: Fs)
    requires Running(v, fs0, data, first, x0, n, done) && done + |src| <= n * BS
    requires forall k | 0 <= k < |src| :: src[k] == if x0 * BS + done + k < |data| then data[x0 * BS + done + k] else 0
    modifies v`dev, v`fs
    ensures Running(v, fs0, data, first, x0, n, done + |src|)
  {
    hide Padded, Geo.IsMeta, Counters, Stored;
    var abs := first * BS + done;
    ghost var was := v.fs.blk;
    forall b | b in Touched(abs, |src|) ensures InRun(b, first, n) {
      assert first * BS < b * BS + BS && b * BS < (first + n) * BS;
    }
    assert |v.dev| == |was|;
    v.PutBytes(abs, src);
    SameButTrans(fs0.blk, was, v.fs.blk, RunBlocks(first, n));
    PieceRun(was, v.fs.blk, data, first, x0, n, done, src);
    assert |v.dev| == |v.fs.blk| by { DeviceLen(v.dev, v.fs); }
  }

  lemma PieceRun(was: seq<Block>, blk: seq<Block>, data: seq<Byte>, first: nat, x0: nat, n: nat, done: nat, src: seq<Byte>)
    requires first + n <= |was| && ByteRun(was, data, first, x0, n, done)
    requires Pieced(was, blk, first * BS + done, src) && done + |src| <= n * BS
    requires forall k | 0 <= k < |src| :: src[k] == if x0 * BS + done + k < |data| then data[x0 * BS + done + k] else 0
    ensures ByteRun(blk, data, first, x0, n, done + |src|)
  {
    forall b: nat, o: nat | InRun(b, first, n) && o < BS && (b - first) * BS + o < done + |src|
      ensures blk[b].data[o] == Padded(data, x0 + (b - first), o)
    {
      var at := (b - first) * BS + o;
      assert b * BS + o == first * BS + at;
      assert (x0 + (b - first)) * BS + o == x0 * BS + at;
      if at >= done {
        assert blk[b].data[o] == src[at - done];
      } else {
        assert blk[b].data[o] == was[b].data[o];
      }
    }
  }

  // ---- writing a file's contents ----

  /** fs2 is fs1 after a transaction that took exactly the free blocks t and wrote only there. */
  ghost predicate Wrote(fs1: Fs, fs2: Fs, t: set<nat>) {
    && Shape(fs1) && FreeFor(fs1, t)
    && SameBut(fs1.blk, fs2.blk, t)
    && BitsSet(fs1.(blk := fs2.blk), fs2, t, true)
  }

  /** file is file0 given the contents data, living in the blocks t. */
  ghost predicate HasContents(d: seq<Block>, file0: Inode, file: Inode, data: seq<Byte>, t: set<nat>) {
    && file == file0.(block := file.block, size := |data|, blocks := |t| * (BS / 512))
    && file.block[14] == 0
    && (forall b: nat :: TreeCnt(d, file, b) == One(b in t))
    && FileBytes(d, file) == data
  }

  method WriteDataIn(v: Volume, ctx: AllocCtx, data: seq<Byte>, db: seq<nat>, ghost fs0: Fs, ghost t: set<nat>)
    requires Going(v, ctx, fs0, t) && Elems(db) <= t && Distinct(db)
    modifies v`dev, v`fs
    ensures Going(v, ctx, fs0, t) && SameBut(old(v.fs.blk), v.fs.blk, Elems(db))
    ensures Filled(v.fs.blk, data, db, |db|)
  {
    hide Stored, Counters, Geo.IsMeta, Geo.Valid, FreeFor, MetaTaken, SuperIs, DescIs, Filled;
    forall b | b in db ensures b < |v.dev| && !v.fs.geo.IsMeta(b) {
      assert b in Elems(db);
      GoingParts(v, ctx, fs0, t, b);
    }
    ghost var f, p := v.fs, ctx.Pending(v);
    WriteDataRuns(v, data, db);
    BitsSetOver(f, p, v.fs.blk, t);
    LoadedOver(v.sb, v.gd, p);
    assert ctx.Pending(v) == p.(blk := v.fs.blk);
  }

  lemma MappedFrame(d: seq<Block>, d2: seq<Block>, i: Inode, db: seq<nat>, leaves: seq<nat>, w: set<nat>)
    requires Mapped(d, i, db, leaves) && SameBut(d, d2, w)
    requires i.block[12] !in w && i.block[13] !in w && forall x | x in leaves :: x !in w
    ensures Mapped(d2, i, db, leaves)
  {
    hide Holds, LeafStart;
  }

  lemma ContentsRead(d: seq<Block>, i: Inode, db: seq<nat>, leaves: seq<nat>, data: seq<Byte>)
    requires Mapped(d, i, db, leaves) && Filled(d, data, db, |db|) && i.size == |data| && 0 !in db
    requires |db| == (|data| + BS - 1) / BS
    ensures FileBytes(d, i) == data
  {
    hide Mapped, BlockAt;
    forall pos: nat | pos < |data| ensures FileByte(d, i, pos) == data[pos] {
      MappedAt(d, i, db, leaves, pos / BS);
      assert BlockIs(d[db[pos / BS]], data, pos / BS);
      assert pos / BS * BS + pos % BS == pos;
    }
  }

  lemma NothingGoing(v: Volume, ctx: AllocCtx)
    requires v.Synced() && BlockCounts(v.fs) && MetaTaken(v.fs)
    requires ctx.Ready(v) && ctx.CursorsBehind() && ctx.Pending(v) == v.fs
    ensures Going(v, ctx, v.fs, {})
  {}

  /** The common part of ext2_create_and_write and ext2_write_existing_at: allocate, map, write, commit. */
  method WriteContents(v: Volume, file0: Inode, data: seq<Byte>)
    returns (ok: bool, file: Inode, ghost t: set<nat>)
    requires v.Synced() && BlockCounts(v.fs) && MetaTaken(v.fs) && IsReg(file0)
    modifies v`dev, v`fs, v`sb, v`gd
    ensures ok ==> v.Synced() && Wrote(old(v.fs), v.fs, t) && HasContents(v.fs.blk, file0, file, data, t)
    ensures ok <==> FitsInFile(data) && NeedBlocks((|data| + BS - 1) / BS) <= old(v.fs).totB
    ensures ok ==> v.fs.totB + NeedBlocks((|data| + BS - 1) / BS) == old(v.fs).totB
  {
    hide Stored, Counters, Loaded, LaidOut, Going, Claimed, Geo.IsMeta, Geo.Valid, NeedBlocks, BlockCounts;
    assert BlockCounts0(v.fs);
    file, t := file0, {};
    ghost var fs0 := v.fs;
    if |data| > 0xFFFF_FFFF { return false, file, t; }
    var need := (|data| + BS - 1) / BS;
    if need > MAX_DATA { return false, file, t; }
    var ctx := new AllocCtx(v);
    NothingGoing(v, ctx);
    var m := new FileMap();
    NothingPlaced(m.T(), v.fs.blk);
    var lbn := 0;
    while lbn < need
      invariant 0 <= lbn <= need && |m.db| == lbn
      invariant m.Good(v, ctx, fs0)
    {
      ghost var held := Claimed(m.T());
      var b := AllocFor(v, ctx, fs0, held);
      if b == 0 {
        ClaimedCount(m.T(), v.fs.blk);
        NeedMore(lbn, need);
        return false, file, t;
      }
      m.allocatedBlocks := m.allocatedBlocks + 1;
      var placed := m.Place(v, ctx, b, fs0);
      if !placed {
        NeedGrows(lbn + 1, need);
        return false, file, t;
      }
      lbn := lbn + 1;
    }
    t := Claimed(m.T());
    ClaimedCount(m.T(), v.fs.blk);
    file := Finish(v, ctx, m, file0, data, fs0, t);
    FinishWrote(v, ctx, fs0, t);
    TakenByGoing(v, ctx, fs0, t);
    ctx.Commit(v);
    return true, file, t;
  }

  /** Contents the inode can address and i_size can count. */
  predicate FitsInFile(data: seq<Byte>) { |data| <= 0xFFFF_FFFF && (|data| + BS - 1) / BS <= MAX_DATA }

  lemma NeedMore(n: nat, m: nat)
    requires n < m
    ensures NeedBlocks(n) < NeedBlocks(m)
  {}

  lemma TakenByGoing(v: Volume, ctx: AllocCtx, fs0: Fs, t: set<nat>)
    requires Going(v, ctx, fs0, t) && BlockCounts0(fs0)
    ensures ctx.Pending(v).totB + |t| == fs0.totB
  {
    hide Stored, Counters, Loaded, Geo.IsMeta, Geo.Valid;
    SameFree(fs0, v.fs, t);
    TakenFromTotal(v.fs, ctx.Pending(v), t);
  }

  lemma FinishWrote(v: Volume, ctx: AllocCtx, fs0: Fs, t: set<nat>)
    requires Going(v, ctx, fs0, t)
    ensures Wrote(fs0, ctx.Pending(v), t) && ctx.Ready(v) && ctx.Pending(v).blk == v.fs.blk
  {}

  /** Last tables and the data go to disk; the inode is filled in. */
  method Finish(v: Volume, ctx: AllocCtx, m: FileMap, file0: Inode, data: seq<Byte>, ghost fs0: Fs, ghost t: set<nat>)
    returns (file: Inode)
    requires m.Good(v, ctx, fs0) && t == Claimed(m.T()) && IsReg(file0)
    requires |m.db| == (|data| + BS - 1) / BS
    modifies v`dev, v`fs
    ensures Going(v, ctx, fs0, t) && HasContents(v.fs.blk, file0, file, data, t)
  {
    hide LaidOut, Going, Claimed, IsReg, Mapped, Filled, AllDiffer, TreeCnt;
    ghost var tab := m.T();
    WriteTables(v, ctx, m, fs0);
    TablesApart(tab, v.fs.blk);
    file := file0.(block := m.block, size := |data|, blocks := m.allocatedBlocks * (BS / 512));
    LaidIsMapped(tab, v.fs.blk, file);
    ghost var d := v.fs.blk;
    WriteDataIn(v, ctx, data, m.db, fs0, t);
    DataApart(m.block[12], m.block[13], m.db, m.leaves);
    MappedFrame(d, v.fs.blk, file, m.db, m.leaves, Elems(m.db));
    ContentsRead(v.fs.blk, file, m.db, m.leaves, data);
    assert IsReg(file) by { KindByMode(file0, file); }
    forall b: nat ensures TreeCnt(v.fs.blk, file, b) == One(b in t) {
      MappedTree(v.fs.blk, file, m.db, m.leaves, b);
    }
  }

  lemma DataApart(ind: nat, root: nat, db: seq<nat>, leaves: seq<nat>)
    requires AllDiffer(ind, root, db, leaves)
    ensures ind !in Elems(db) && root !in Elems(db) && 0 !in db && forall x | x in leaves :: x !in Elems(db)
  {}

  /** Single-indirect block, last leaf, double-indirect root. */
  method WriteTables(v: Volume, ctx: AllocCtx, m: FileMap, ghost fs0: Fs)
    requires m.Good(v, ctx, fs0)
    modifies v`dev, v`fs
    ensures LaidOut(m.T(), v.fs.blk) && Going(v, ctx, fs0, Claimed(m.T())) && |m.block| == 15
    ensures m.block[12] != 0 ==> m.block[12] < |v.fs.blk| && v.fs.blk[m.block[12]].ptrs == m.single
    ensures m.block[13] != 0 ==> m.block[13] < |v.fs.blk| && v.fs.blk[m.block[13]].ptrs == m.droot
    ensures m.leaves != [] ==> 0 < m.leafBlock < |v.fs.blk| && v.fs.blk[m.leafBlock].ptrs == m.dleaf
  {
    hide LaidOut, Going, Claimed;
    ghost var tab := m.T();
    SizesOf(tab, v.fs.blk);
    TablesApart(tab, v.fs.blk);
    if m.block[12] != 0 { PutTable(v, ctx, m.block[12], m.single, fs0, tab); }
    if m.leafIndex != -1 { PutTable(v, ctx, m.leafBlock, m.dleaf, fs0, tab); }
    if m.block[13] != 0 { PutTable(v, ctx, m.block[13], m.droot, fs0, tab); }
  }

  lemma TablesApart(t: Tables, d: seq<Block>)
    requires LaidOut(t, d)
    ensures Sized(t) && AllDiffer(t.block[12], t.block[13], t.db, t.leaves) && t.block[14] == 0
    ensures Elems(t.db) <= Claimed(t) && Distinct(t.db)
    ensures forall x | x in t.leaves :: x in Claimed(t)
    ensures t.block[12] != 0 ==> t.block[12] in Claimed(t)
    ensures t.block[13] != 0 ==> t.block[13] in Claimed(t)
    ensures t.leaves != [] ==> t.leafBlock in t.leaves
    ensures forall o | 0 <= o < t.leafIndex :: t.leafIndex < |t.leaves| && t.leaves[o] != t.leafBlock
    ensures forall o | 0 <= o < t.leafIndex :: t.leaves[o] != t.block[12] && t.leaves[o] != t.block[13]
  {
    hide Holds, LeafStart;
    forall o | 0 <= o < |t.leaves| ensures t.leaves[o] != t.block[12] && t.leaves[o] != t.block[13] {
      assert t.leaves[o] in t.leaves;
    }
  }

  /** One table to disk: the rest of the layout is unaffected. */
  method PutTable(v: Volume, ctx: AllocCtx, b: nat, ptrs: seq<nat>, ghost fs0: Fs, ghost tab: Tables)
    requires LaidOut(tab, v.fs.blk) && Going(v, ctx, fs0, Claimed(tab)) && b in Claimed(tab) && |ptrs| == PTRS
    requires forall o | 0 <= o < tab.leafIndex :: tab.leafIndex < |tab.leaves| && tab.leaves[o] != b
    modifies v`dev, v`fs
    ensures LaidOut(tab, v.fs.blk) && Going(v, ctx, fs0, Claimed(tab))
    ensures SameBut(old(v.fs.blk), v.fs.blk, {b}) && 0 < b < |v.fs.blk| && v.fs.blk[b].ptrs == ptrs
  {
    hide LaidOut, Going, Claimed;
    ghost var d := v.fs.blk;
    GoingParts(v, ctx, fs0, Claimed(tab), b);
    PutOwn(v, ctx, b, ptrs, fs0, Claimed(tab));
    SizesOf(tab, d);
    LaidFrame(tab, d, v.fs.blk, {b});
  }
}
