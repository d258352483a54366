/** The whole check: ext2_fsck_phase1 reports no error exactly on clean images. */
module Fsck {
  import opened Sums
  import opened Ext2Layout
  import opened Ext2State
  import opened FsckBlocks
  import opened FsckDirectory
  import opened FsckSpec
  import opened FsckInodes

  /** The owner of metadata blocks: UINT32_MAX. */
  const META: nat := 0xFFFF_FFFF

  lemma InGroup(img: Img, g: nat, r: nat)
    requires g < img.Groups() && r < img.NBlk(g)
    ensures g * BPG + r < img.blocks && (g * BPG + r) / BPG == g && (g * BPG + r) % BPG == r
  {}

  lemma BitIs(img: Img, g: nat, r: nat)
    requires img.HasGeometry() && g < img.Groups() && r < img.NBlk(g) && img.Gd(g).blockBitmap < |img.d|
    ensures g * BPG + r < img.blocks
    ensures img.BAlloc(g * BPG + r) == img.d[img.Gd(g).blockBitmap].bits[r]
  {
    InGroup(img, g, r);
  }

  lemma InodeBitIs(img: Img, g: nat, i: nat)
    requires img.HasGeometry() && g < img.Groups() && i < img.NIno(g) && img.Gd(g).inodeBitmap < |img.d|
    ensures g * IPG + i < img.inodes
    ensures img.IAlloc(g * IPG + i) == img.d[img.Gd(g).inodeBitmap].bits[i]
  {
    assert (g * IPG + i) / IPG == g && (g * IPG + i) % IPG == i;
  }

  // ---- loading ----

  method LoadInodeBits(c: Context, img: Img) returns (ok: bool)
    requires img.HasGeometry() && c.Sized() && c.dev == img.d && c.inodeCount == img.inodes
    requires c.inodeAllocd == seq(img.inodes, _ => false)
    modifies c`inodeAllocd
    ensures c.Sized()
    ensures ok <==> forall g: nat | g < img.Groups() :: img.HasInodeMap(g)
    ensures ok ==> c.inodeAllocd == img.IAllocs()
  {
    hide Img.Gd, Img.IAlloc;
    var g := 0;
    while g < img.Groups()
      invariant 0 <= g <= img.Groups() && c.Sized()
      invariant forall g2: nat | g2 < g :: img.HasInodeMap(g2)
      invariant forall k: nat | k < img.inodes :: c.inodeAllocd[k] == (k < g * IPG && img.IAlloc(k))
    {
      var imapAt, n := img.Gd(g).inodeBitmap, img.NIno(g);
      if n != 0 {
        if imapAt >= |c.dev| {
          assert !img.HasInodeMap(g);
          return false;
        }
        var ib := c.dev[imapAt].bits;
        var i := 0;
        while i < n
          invariant 0 <= i <= n && c.Sized()
          invariant forall k: nat | k < img.inodes :: c.inodeAllocd[k] == (k < g * IPG + i && img.IAlloc(k))
        {
          InodeBitIs(img, g, i);
          if ib[i] { c.inodeAllocd := c.inodeAllocd[g * IPG + i := true]; }
          i := i + 1;
        }
      }
      g := g + 1;
    }
    forall k: nat | k < img.inodes ensures c.inodeAllocd[k] == img.IAlloc(k) { InoInGroup(img, k); }
    ok := true;
  }

  lemma InoInGroup(img: Img, k: nat)
    requires img.HasGeometry()
    ensures img.IAlloc(k) ==> k < img.Groups() * IPG
  {}

  method LoadBlockBits(c: Context, img: Img) returns (ok: bool)
    requires img.HasGeometry() && c.Sized() && c.dev == img.d && c.count == img.blocks
    requires c.allocd == seq(img.blocks, _ => false)
    modifies c`allocd
    ensures c.Sized()
    ensures ok <==> forall g: nat | g < img.Groups() :: img.HasBlockMap(g)
    ensures ok ==> c.allocd == img.Allocs()
  {
    hide Img.Gd, Img.BAlloc;
    var g := 0;
    while g < img.Groups()
      invariant 0 <= g <= img.Groups() && c.Sized()
      invariant forall g2: nat | g2 < g :: img.HasBlockMap(g2)
      invariant forall b: nat | b < img.blocks :: c.allocd[b] == (b < g * BPG && img.BAlloc(b))
    {
      var start, n, bmapAt := g * BPG, img.NBlk(g), img.Gd(g).blockBitmap;
      if bmapAt < start || bmapAt >= start + n {
        assert !img.HasBlockMap(g);
        return false;
      }
      var bb := c.dev[bmapAt].bits;
      var i := 0;
      while i < n
        invariant 0 <= i <= n && c.Sized()
        invariant forall b: nat | b < img.blocks :: c.allocd[b] == (b < g * BPG + i && img.BAlloc(b))
      {
        BitIs(img, g, i);
        if bb[i] { c.allocd := c.allocd[start + i := true]; }
        i := i + 1;
      }
      g := g + 1;
    }
    ok := true;
  }

  // ---- metadata marks ----

  /** Owners as they are before any inode is looked into. */
  ghost predicate Marked(c: Context, img: Img)
    requires img.Readable()
    reads c
  {
    c.Sized() && c.count == img.blocks &&
    forall b: nat | b < c.count :: c.owners[b] == if img.IsMetadata(b) then META else 0
  }

  /** Metadata of the groups below g. */
  ghost predicate MetaBelow(img: Img, g: nat, b: nat)
    requires img.Readable() && g <= img.Groups()
  {
    exists g2: nat :: g2 < g && img.MetaOf(g2, b)
  }

  /** mark_meta over first, first+1, ... */
  method MarkRange(c: Context, first: nat, span: nat)
    requires c.Sized()
    modifies c`owners
    ensures c.Sized()
    ensures forall b: nat | b < c.count ::
      c.owners[b] == if first <= b < first + span then META else old(c.owners)[b]
  {
    var j := 0;
    while j < span
      invariant 0 <= j <= span && c.Sized()
      invariant forall b: nat | b < c.count ::
        c.owners[b] == if first <= b < first + j then META else old(c.owners)[b]
    {
      if first + j < c.count { c.owners := c.owners[first + j := META]; }
      j := j + 1;
    }
  }

  method MarkMetadata(c: Context, img: Img)
    requires img.Readable() && c.Sized() && c.count == img.blocks
    requires c.owners == seq(img.blocks, _ => 0)
    modifies c`owners
    ensures Marked(c, img)
  {
    hide Img.Gd;
    var g := 0;
    while g < img.Groups()
      invariant 0 <= g <= img.Groups() && c.Sized()
      invariant forall b: nat | b < c.count :: c.owners[b] == if MetaBelow(img, g, b) then META else 0
    {
      var gd, start := img.Gd(g), g * BPG;
      ghost var was := c.owners;
      var end := if start + BPG < img.blocks then start + BPG else img.blocks;
      MarkRange(c, gd.blockBitmap, 1);
      MarkRange(c, gd.inodeBitmap, 1);
      MarkRange(c, gd.inodeTable, ITB);
      var span := 1 + img.GdBlocks();
      MarkRange(c, start, if start + span <= end then span else end - start);
      assert forall b: nat | b < c.count :: c.owners[b] == if img.MetaOf(g, b) then META else was[b];
      forall b: nat | b < c.count ensures MetaBelow(img, g + 1, b) == (MetaBelow(img, g, b) || img.MetaOf(g, b)) {
        if img.MetaOf(g, b) { assert g < g + 1 && img.MetaOf(g, b); }
      }
      g := g + 1;
    }
    forall b: nat ensures MetaBelow(img, img.Groups(), b) == img.IsMetadata(b) {}
  }

  // ---- one group ----

  /** Clear bits among the first n, as the two counting loops count them. */
  method CountClear(bits: seq<bool>, n: nat) returns (free: nat)
    requires n <= |bits|
    ensures free == Clear(bits, n)
  {
    free := 0;
    var i := 0;
    while i < n
      invariant 0 <= i <= n && free == Clear(bits, i)
    {
      if !bits[i] { free := free + 1; }
      i := i + 1;
    }
  }

  /** Errors for blocks first, first+1, ... of the group that are marked free. */
  method CheckRange(bb: seq<bool>, start: nat, nblk: nat, first: nat, span: nat) returns (errors: nat)
    requires nblk <= |bb|
    ensures errors == 0 <==> forall r: nat | r < nblk && first <= start + r < first + span :: bb[r]
  {
    errors := 0;
    var j := 0;
    while j < span
      invariant 0 <= j <= span
      invariant errors == 0 <==> forall r: nat | r < nblk && first <= start + r < first + j :: bb[r]
    {
      var blk := first + j;
      if blk >= start && blk < start + nblk && !bb[blk - start] { errors := errors + 1; }
      j := j + 1;
    }
  }

  method CheckMeta(bb: seq<bool>, start: nat, nblk: nat, meta: seq<nat>) returns (errors: nat)
    requires nblk <= |bb| && |meta| == 3
    ensures errors == 0 <==> forall r: nat, k: nat |
      r < nblk && k < 3 && meta[k] <= start + r < meta[k] + (if k == 2 then ITB else 1) :: bb[r]
  {
    errors := 0;
    var k := 0;
    while k < 3
      invariant 0 <= k <= 3
      invariant errors == 0 <==> forall r: nat, k2: nat |
        r < nblk && k2 < k && meta[k2] <= start + r < meta[k2] + (if k2 == 2 then ITB else 1) :: bb[r]
    {
      var more := CheckRange(bb, start, nblk, meta[k], if k == 2 then ITB else 1);
      errors := errors + more;
      k := k + 1;
    }
  }

  /** The leading superblock and descriptor copies are marked used. */
  method CheckCopies(bb: seq<bool>, nblk: nat, span: nat) returns (errors: nat)
    requires nblk <= |bb|
    ensures errors == 0 <==> forall j: nat | j < span && j < nblk :: bb[j]
  {
    errors := 0;
    var j := 0;
    while j < span && j < nblk
      invariant 0 <= j <= nblk && j <= span
      invariant errors == 0 <==> forall j2: nat | j2 < j :: bb[j2]
    {
      if !bb[j] { errors := errors + 1; }
      j := j + 1;
    }
  }

  method CheckReserved(ib: seq<bool>, nino: nat) returns (errors: nat)
    requires nino <= |ib|
    ensures errors == 0 <==> forall i: nat | i < 10 && i < nino :: ib[i]
  {
    errors := 0;
    var reserved := 11;
    if reserved > nino + 1 { reserved := nino + 1; }
    var i := 0;
    while i + 1 < reserved
      invariant 0 <= i < reserved
      invariant errors == 0 <==> forall i2: nat | i2 < i :: ib[i2]
    {
      if !ib[i] { errors := errors + 1; }
      i := i + 1;
    }
  }

  /** Bitmaps and inode table lie inside the group. */
  predicate InBounds(img: Img, g: nat)
    requires img.HasGeometry() && g < img.Groups()
  {
    var gd, start, nblk := img.Gd(g), g * BPG, img.NBlk(g);
    && start <= gd.blockBitmap < start + nblk && start <= gd.inodeBitmap < start + nblk
    && start <= gd.inodeTable && gd.inodeTable + ITB <= start + nblk
  }

  /** The bits the checker looks at are the bits of the blocks it means. */
  lemma SaneMeans(img: Img, g: nat, meta: seq<nat>)
    requires img.Readable() && g < img.Groups() && InBounds(img, g)
    requires img.Gd(g).blockBitmap < |img.d| && img.Gd(g).inodeBitmap < |img.d|
    requires meta == [img.Gd(g).blockBitmap, img.Gd(g).inodeBitmap, img.Gd(g).inodeTable]
    ensures var gd, start, nblk, bb := img.Gd(g), g * BPG, img.NBlk(g), img.d[img.Gd(g).blockBitmap].bits;
      img.GroupSane(g) <==>
        && gd.freeBlocks == Clear(bb, nblk)
        && gd.freeInodes == Clear(img.d[gd.inodeBitmap].bits, img.NIno(g))
        && (forall r: nat, k: nat |
              r < nblk && k < 3 && meta[k] <= start + r < meta[k] + (if k == 2 then ITB else 1) :: bb[r])
        && (forall j: nat | j < 1 + img.GdBlocks() && j < nblk :: bb[j])
        && (g == 0 ==> forall i: nat | i < 10 && i < img.NIno(0) :: img.d[gd.inodeBitmap].bits[i])
  {
    hide Img.Gd, Img.BAlloc, Clear;
    var gd, start, nblk, bb := img.Gd(g), g * BPG, img.NBlk(g), img.d[img.Gd(g).blockBitmap].bits;
    forall b: nat | start <= b < start + nblk ensures img.BAlloc(b) == bb[b - start] {
      BitIs(img, g, b - start);
    }
    if img.GroupSane(g) {
      forall r: nat, k: nat | r < nblk && k < 3 && meta[k] <= start + r < meta[k] + (if k == 2 then ITB else 1)
        ensures bb[r]
      {
        assert img.BAlloc(start + r);
      }
      forall j: nat | j < 1 + img.GdBlocks() && j < nblk ensures bb[j] {
        assert img.BAlloc(start + j);
      }
    }
    if forall r: nat, k: nat |
      r < nblk && k < 3 && meta[k] <= start + r < meta[k] + (if k == 2 then ITB else 1) :: bb[r]
    {
      assert bb[gd.blockBitmap - start] by { assert meta[0] == gd.blockBitmap; }
      assert bb[gd.inodeBitmap - start] by { assert meta[1] == gd.inodeBitmap; }
      forall b: nat | gd.inodeTable <= b < gd.inodeTable + ITB ensures img.BAlloc(b) {
        assert meta[2] == gd.inodeTable;
        assert bb[b - start];
      }
    }
  }

  /** The body of the loop over groups. */
  method CheckGroup(c: Context, img: Img, g: nat, ghost owners0: seq<nat>, ghost good: bool)
    returns (errors: nat, fb: nat, fi: nat)
    requires img.Readable() && g < img.Groups() && Fits(c, img)
    requires good ==> Tracks(c, img, owners0, Upto(img, g)) && Fine(img, owners0, Upto(img, g))
    modifies c`owners, c`directoryRefs, c`inodeLinks, c`inodeChecked
    ensures Fits(c, img)
    ensures good ==> (errors == 0 <==> img.GroupSane(g) && Fine(img, owners0, Upto(img, g + 1)))
    ensures good && errors == 0 ==> Tracks(c, img, owners0, Upto(img, g + 1))
    ensures good && errors == 0 ==> fb == img.FreeBlocksTerm()(g) && fi == img.FreeInodesTerm()(g)
  {
    hide Img.Gd, Tracks, Fine, Clear;
    var gd, start, nblk, nino := img.Gd(g), g * BPG, img.NBlk(g), img.NIno(g);
    errors, fb, fi := 0, 0, 0;
    if gd.blockBitmap < start || gd.blockBitmap >= start + nblk || gd.inodeBitmap < start ||
       gd.inodeBitmap >= start + nblk || gd.inodeTable < start || gd.inodeTable + ITB > start + nblk {
      return 1, 0, 0;
    }
    var bb, ib := c.dev[gd.blockBitmap].bits, c.dev[gd.inodeBitmap].bits;
    errors := CheckInodes(c, img, g, nino, gd.inodeTable, ib, owners0, good);
    fb := CountClear(bb, nblk);
    fi := CountClear(ib, nino);
    if fb != gd.freeBlocks { errors := errors + 1; }
    if fi != gd.freeInodes { errors := errors + 1; }
    var meta := [gd.blockBitmap, gd.inodeBitmap, gd.inodeTable];
    var more := CheckMeta(bb, start, nblk, meta);
    errors := errors + more;
    more := CheckCopies(bb, nblk, 1 + img.GdBlocks());
    errors := errors + more;
    if g == 0 {
      more := CheckReserved(ib, nino);
      errors := errors + more;
    }
    SaneMeans(img, g, meta);
    hide Img.GroupSane, Img.Readable;
  }

  // ---- all groups ----

  lemma {:induction false} FineBefore(img: Img, owners0: seq<nat>, n: nat, m: nat)
    requires img.Readable() && n <= m <= img.inodes && Fine(img, owners0, m)
    ensures Fine(img, owners0, n)
    decreases m - n
  {
    hide Fine, Img.HasGeometry, Img.HasInodeMap, Img.HasBlockMap;
    if n < m {
      if !Fine(img, owners0, m - 1) { StaysBad(img, owners0, m - 1); }
      FineBefore(img, owners0, n, m - 1);
    }
  }

  /** Inodes beyond the last group have no bitmap and are not looked into. */
  lemma {:induction false} Beyond(c: Context, img: Img, owners0: seq<nat>, n: nat)
    requires img.Readable() && img.Groups() * IPG <= n <= img.inodes
    ensures Fine(img, owners0, n) <==> Fine(img, owners0, img.inodes)
    ensures Tracks(c, img, owners0, n) ==> Tracks(c, img, owners0, img.inodes)
    decreases img.inodes - n
  {
    hide Fine, Tracks, Img.HasGeometry, Img.HasInodeMap, Img.HasBlockMap;
    if n < img.inodes {
      InoInGroup(img, n);
      SkipInode(c, img, owners0, n);
      Beyond(c, img, owners0, n + 1);
    }
  }

  method CheckGroups(c: Context, img: Img, ghost owners0: seq<nat>) returns (errors: nat, totalb: nat, totali: nat)
    requires img.Readable() && Fits(c, img)
    requires Tracks(c, img, owners0, 0) && Fine(img, owners0, 0)
    modifies c`owners, c`directoryRefs, c`inodeLinks, c`inodeChecked
    ensures Fits(c, img)
    ensures errors == 0 <==> (forall g: nat | g < img.Groups() :: img.GroupSane(g)) && Fine(img, owners0, img.inodes)
    ensures errors == 0 ==> Tracks(c, img, owners0, img.inodes)
    ensures errors == 0 ==> totalb == Sum(img.Groups(), img.FreeBlocksTerm())
    ensures errors == 0 ==> totali == Sum(img.Groups(), img.FreeInodesTerm())
  {
    hide Fine, Tracks, Img.HasGeometry, Img.HasInodeMap, Img.HasBlockMap, Img.GroupSane, Img.FreeBlocksTerm, Img.FreeInodesTerm;
    errors, totalb, totali := 0, 0, 0;
    var g := 0;
    while g < img.Groups()
      invariant 0 <= g <= img.Groups() && Fits(c, img)
      invariant errors == 0 <==> (forall g2: nat | g2 < g :: img.GroupSane(g2)) && Fine(img, owners0, Upto(img, g))
      invariant errors == 0 ==> Tracks(c, img, owners0, Upto(img, g))
      invariant errors == 0 ==> totalb == Sum(g, img.FreeBlocksTerm()) && totali == Sum(g, img.FreeInodesTerm())
    {
      ghost var good := errors == 0;
      var more, fb, fi := CheckGroup(c, img, g, owners0, good);
      if Fine(img, owners0, Upto(img, g + 1)) { FineBefore(img, owners0, Upto(img, g), Upto(img, g + 1)); }
      errors, totalb, totali := errors + more, totalb + fb, totali + fi;
      g := g + 1;
    }
    if img.Groups() * IPG < img.inodes {
      Beyond(c, img, owners0, img.Groups() * IPG);
    }
  }

  // ---- totals ----

  method CheckLinks(c: Context, img: Img, ghost owners0: seq<nat>, ghost good: bool) returns (errors: nat)
    requires img.Readable() && Fits(c, img)
    requires good ==> Tracks(c, img, owners0, img.inodes)
    ensures good ==> (errors == 0 <==>
      forall x: nat | img.CheckedIno(x) :: img.References(img.inodes, x) == img.LinksOf(x))
  {
    hide Img.References, Img.LinksOf;
    errors := 0;
    var ino := 1;
    while ino <= c.inodeCount
      invariant 1 <= ino <= c.inodeCount + 1
      invariant errors == 0 <==>
        forall x: nat | 0 < x < ino && c.inodeChecked[x] :: c.directoryRefs[x] == c.inodeLinks[x]
    {
      if c.inodeChecked[ino] && c.directoryRefs[ino] != c.inodeLinks[ino] { errors := errors + 1; }
      ino := ino + 1;
    }
    assert forall x: nat :: img.CheckedIno(x) ==> x <= img.inodes;
  }

  method CheckOwners(c: Context) returns (unowned: nat)
    requires c.Sized()
    ensures unowned == 0 <==> forall b: nat | b < c.count && c.allocd[b] :: c.owners[b] != 0
  {
    unowned := 0;
    var b := 0;
    while b < c.count
      invariant 0 <= b <= c.count
      invariant unowned == 0 <==> forall b2: nat | b2 < b && c.allocd[b2] :: c.owners[b2] != 0
    {
      if c.allocd[b] && c.owners[b] == 0 { unowned := unowned + 1; }
      b := b + 1;
    }
  }

  /** Before any inode: nothing owned, nothing referenced. */
  lemma NothingYet(c: Context, img: Img)
    requires img.Readable() && Fits(c, img) && Marked(c, img)
    requires c.directoryRefs == seq(img.inodes + 1, _ => 0) && c.inodeChecked == seq(img.inodes + 1, _ => false)
    ensures Tracks(c, img, c.owners, 0) && Fine(img, c.owners, 0)
  {
    hide Img.HasGeometry, Img.HasInodeMap, Img.HasBlockMap, Img.Allocs, Img.IAllocs, Img.IsMetadata;
  }

  /** Ownership as recorded is ownership as meant. */
  lemma Settled(c: Context, img: Img, owners0: seq<nat>)
    requires img.Readable() && Tracks(c, img, owners0, img.inodes)
    requires forall b: nat | b < img.blocks :: owners0[b] == if img.IsMetadata(b) then META else 0
    ensures (forall b: nat | b < c.count && c.allocd[b] :: c.owners[b] != 0) <==>
      forall b: nat | img.BAlloc(b) :: img.IsMetadata(b) || img.Owned(img.inodes, b) > 0
  {
    hide Img.HasGeometry, Img.HasInodeMap, Img.HasBlockMap, Img.IsMetadata, Img.Owned;
    forall b: nat | b < img.blocks ensures c.allocd[b] == img.BAlloc(b) {}
  }

  lemma FineMeans(img: Img, owners0: seq<nat>)
    requires img.Readable() && |owners0| == img.blocks
    requires forall b: nat | b < img.blocks :: owners0[b] == if img.IsMetadata(b) then META else 0
    ensures Fine(img, owners0, img.inodes) <==>
      && (forall k: nat | k < img.inodes && img.Checked(k) :: img.InodeSane(k))
      && (forall b: nat :: img.Owned(img.inodes, b) <= if img.BAlloc(b) && !img.IsMetadata(b) then 1 else 0)
  {
    hide Img.HasGeometry, Img.HasInodeMap, Img.HasBlockMap, Img.IsMetadata, Img.Owned, Img.InodeSane;
    forall b: nat
      ensures Avail(owners0, img.Allocs(), b) == if img.BAlloc(b) && !img.IsMetadata(b) then 1 else 0
    {}
  }

  /** Superblock, descriptors and bitmaps can be read and make sense. */
  ghost predicate Loadable(d: seq<Block>) {
    |d| >= 1 && d[0].super.magic == 0xEF53 && Img(d, d[0].super.blocksCount, d[0].super.inodesCount).Readable()
  }

  /** ext2_fsck_phase1: 2 if the image cannot be checked, 1 if it has errors, 0 if it has none. */
  method Phase1(dev: seq<Block>) returns (rc: nat)
    ensures rc == 2 <==> !Loadable(dev)
    ensures rc == 0 <==> Clean(dev)
    ensures rc <= 2
  {
    hide Fine, Tracks, Img.IsMetadata, Img.GroupSane, Img.InodeSane, Img.Owned, Img.References, Img.LinksOf,
      Img.Gd, Img.Allocs, Img.IAllocs, Img.HasInodeMap, Img.HasBlockMap, Img.FreeBlocksTerm, Img.FreeInodesTerm;
    if |dev| == 0 || dev[0].super.magic != 0xEF53 { return 2; }
    var sb := dev[0].super;
    var img := Img(dev, sb.blocksCount, sb.inodesCount);
    if img.blocks == 0 || img.inodes == 0 || img.blocks * BS > |dev| * BS { return 2; }
    var groups := (img.blocks + BPG - 1) / BPG;
    var inodeGroups := (img.inodes + IPG - 1) % 0x1_0000_0000 / IPG;
    if groups == 0 || groups > 65535 || inodeGroups > groups { return 2; }
    if BS + groups * 32 > |dev| * BS { return 2; }
    var c := new Context(dev, img.blocks, img.inodes);
    var ok := LoadInodeBits(c, img);
    if !ok { return 2; }
    ok := LoadBlockBits(c, img);
    if !ok { return 2; }
    MarkMetadata(c, img);
    NothingYet(c, img);
    ghost var owners0 := c.owners;
    var errors, totalb, totali := CheckGroups(c, img, owners0);
    if totalb != sb.freeBlocks { errors := errors + 1; }
    if totali != sb.freeInodes { errors := errors + 1; }
    var more := CheckLinks(c, img, owners0, errors == 0);
    errors := errors + more;
    var unowned := CheckOwners(c);
    if unowned != 0 { errors := errors + 1; }
    FineMeans(img, owners0);
    if Tracks(c, img, owners0, img.inodes) { Settled(c, img, owners0); }
    rc := if errors != 0 then 1 else 0;
  }
}
