/** The checker's walk over the inodes of one group. */
module FsckInodes {
  import opened Sums
  import opened Ext2Layout
  import opened FsckBlocks
  import opened FsckDirectory
  import opened FsckSpec

  /** Nothing wrong with the first n inodes, given who owned what before. */
  ghost predicate Fine(img: Img, owners0: seq<nat>, n: nat)
    requires img.Readable() && n <= img.inodes
  {
    && (forall b: nat :: img.Owned(n, b) <= Avail(owners0, img.Allocs(), b))
    && (forall k: nat | k < n && img.Checked(k) :: img.InodeSane(k))
  }

  /** Owners, reference counts, links and marks record exactly the first n inodes. */
  ghost predicate Recorded(img: Img, owners0: seq<nat>, n: nat, owners: seq<nat>, refs: seq<nat>, links: seq<nat>,
                           checked: seq<bool>)
    requires img.Readable() && n <= img.inodes && |owners| == |owners0| == img.blocks
    requires |refs| == |links| == |checked| == img.inodes + 1
  {
    && (forall b: nat :: Avail(owners, img.Allocs(), b) + img.Owned(n, b) == Avail(owners0, img.Allocs(), b))
    && (forall b: nat | b < img.blocks :: owners[b] != 0 <==> owners0[b] != 0 || img.Owned(n, b) > 0)
    && (forall x: nat | 0 < x <= img.inodes :: refs[x] == img.References(n, x))
    && (forall x: nat | 0 < x <= img.inodes :: checked[x] == (x <= n && img.CheckedIno(x)))
    && (forall x: nat | 0 < x <= n && checked[x] :: links[x] == img.LinksOf(x))
  }

  /** The context has recorded exactly the first n inodes. */
  ghost predicate Tracks(c: Context, img: Img, owners0: seq<nat>, n: nat)
    requires img.Readable() && n <= img.inodes
    reads c
  {
    && Fits(c, img) && |owners0| == c.count
    && Recorded(img, owners0, n, c.owners, c.directoryRefs, c.inodeLinks, c.inodeChecked)
  }

  /** The fixed part of the context. */
  ghost predicate Fits(c: Context, img: Img)
    requires img.Readable()
    reads c
  {
    && c.Sized() && c.dev == img.d && c.count == img.blocks && c.inodeCount == img.inodes
    && c.allocd == img.Allocs() && c.inodeAllocd == img.IAllocs()
  }

  lemma SkipInode(c: Context, img: Img, owners0: seq<nat>, n: nat)
    requires img.Readable() && n < img.inodes && !img.Checked(n)
    ensures Tracks(c, img, owners0, n) ==> Tracks(c, img, owners0, n + 1)
    ensures Fine(img, owners0, n) <==> Fine(img, owners0, n + 1)
  {
    hide Avail, Img.InodeSane, Img.InodeAt, Img.Allocs, Img.IAllocs, Img.Readable, Img.Checked;
    forall b: nat ensures img.Owned(n + 1, b) == img.Owned(n, b) {}
    forall x: nat ensures img.References(n + 1, x) == img.References(n, x) {}
  }

  /** One inode more, recorded: its tree off what was available, its records added, its links and mark set. */
  lemma OneMore(img: Img, owners0: seq<nat>, n: nat, inode: Inode, owners: seq<nat>, refs: seq<nat>, links: seq<nat>,
                checked: seq<bool>, owners2: seq<nat>, refs2: seq<nat>)
    requires img.Readable() && n < img.inodes && |owners| == |owners2| == |owners0| == img.blocks
    requires |refs| == |refs2| == |links| == |checked| == img.inodes + 1
    requires Recorded(img, owners0, n, owners, refs, links, checked) && img.Checked(n) && inode == img.InodeAt(n)
    requires forall b: nat :: Avail(owners2, img.Allocs(), b) + TreeCnt(img.d, inode, b) == Avail(owners, img.Allocs(), b)
    requires forall b | 0 <= b < img.blocks :: owners2[b] == if TreeCnt(img.d, inode, b) > 0 then n + 1 else owners[b]
    requires forall x: nat | 0 < x <= img.inodes :: refs2[x] == refs[x] + RefsHere(img, inode, x)
    ensures Recorded(img, owners0, n + 1, owners2, refs2, links[n + 1 := inode.links], checked[n + 1 := true])
  {
    hide Avail, Img.InodeAt, Img.Allocs, Img.IAllocs, Img.HasGeometry, Img.HasInodeMap, Img.HasBlockMap, Img.Checked,
      TreeCnt, ScanCnt, FileType;
    forall b: nat ensures img.Owned(n + 1, b) == img.Owned(n, b) + TreeCnt(img.d, inode, b) {}
    forall x: nat ensures img.References(n + 1, x) == img.References(n, x) + RefsHere(img, inode, x) {}
    hide Img.Owned, Img.References;
  }

  /** The verdict on one inode more. */
  lemma OneMoreFine(img: Img, owners0: seq<nat>, n: nat, owners: seq<nat>)
    requires img.Readable() && n < img.inodes && img.Checked(n) && Fine(img, owners0, n)
    requires forall b: nat :: Avail(owners, img.Allocs(), b) + img.Owned(n, b) == Avail(owners0, img.Allocs(), b)
    ensures Fine(img, owners0, n + 1) <==>
      img.InodeSane(n) && forall b: nat :: TreeCnt(img.d, img.InodeAt(n), b) <= Avail(owners, img.Allocs(), b)
  {
    assert n / IPG < img.Groups();
    hide Avail, Img.InodeAt, Img.Allocs, Img.IAllocs, Img.HasGeometry, Img.HasInodeMap, Img.HasBlockMap, Img.Checked,
      TreeCnt, Img.InodeSane;
    forall b: nat ensures img.Owned(n + 1, b) == img.Owned(n, b) + TreeCnt(img.d, img.InodeAt(n), b) {}
    hide Img.Owned;
  }

  ghost function RefsHere(img: Img, inode: Inode, x: nat): nat
    requires img.Readable()
  {
    if IsDir(inode) then ScanCnt(img.d, img.Allocs(), inode, ByIno(x), 12) else 0
  }

  /** One inode that is looked into; errors is what its own checks found. */
  method CheckOne(c: Context, img: Img, n: nat, inode: Inode, ghost owners0: seq<nat>, ghost good: bool)
    returns (errors: nat)
    requires img.Readable() && n < img.inodes && Fits(c, img) && img.Checked(n) && inode == img.InodeAt(n)
    requires good ==> Tracks(c, img, owners0, n) && Fine(img, owners0, n)
    modifies c`owners, c`directoryRefs, c`inodeLinks, c`inodeChecked
    ensures Fits(c, img)
    ensures good ==> (errors == 0 <==> Fine(img, owners0, n + 1))
    ensures good && errors == 0 ==> Tracks(c, img, owners0, n + 1)
  {
    hide Avail, Img.InodeAt, Img.Allocs, Img.IAllocs, Img.Checked, TreeCnt, ScanCnt, DirSound, FileType, Fine, Recorded;
    errors := 0;
    var ino := n + 1;
    if !(IsReg(inode) || IsDir(inode) || IsLink(inode) || IsNode(inode)) { errors := errors + 1; }
    if inode.dtime != 0 { errors := errors + 1; }
    if inode.links == 0 { errors := errors + 1; }
    ghost var owners, refs, links, checked := c.owners, c.directoryRefs, c.inodeLinks, c.inodeChecked;
    c.inodeLinks := c.inodeLinks[ino := inode.links];
    c.inodeChecked := c.inodeChecked[ino := true];
    var more := c.CheckDirect(ino, inode);
    errors := errors + more;
    if IsDir(inode) {
      more := CheckDirectory(c, inode);
      errors := errors + more;
    }
    if good {
      BalanceOf(img, owners0, n, owners, refs, links, checked);
      OneMoreFine(img, owners0, n, owners);
      if errors == 0 { OneMore(img, owners0, n, inode, owners, refs, links, checked, c.owners, c.directoryRefs); }
    }
  }

  lemma BalanceOf(img: Img, owners0: seq<nat>, n: nat, owners: seq<nat>, refs: seq<nat>, links: seq<nat>, checked: seq<bool>)
    requires img.Readable() && n <= img.inodes && |owners| == |owners0| == img.blocks
    requires |refs| == |links| == |checked| == img.inodes + 1 && Recorded(img, owners0, n, owners, refs, links, checked)
    ensures forall b: nat :: Avail(owners, img.Allocs(), b) + img.Owned(n, b) == Avail(owners0, img.Allocs(), b)
  {}

  /** Inodes of the groups below g. */
  function Upto(img: Img, g: nat): nat { if g * IPG < img.inodes then g * IPG else img.inodes }

  /** fsck_ext2_check_inodes for group g. */
  method CheckInodes(c: Context, img: Img, g: nat, count: nat, table: nat, bitmap: seq<bool>,
                     ghost owners0: seq<nat>, ghost good: bool) returns (errors: nat)
    requires img.Readable() && g < img.Groups() && count == img.NIno(g) && Fits(c, img)
    requires table + ITB <= |img.d| && img.Gd(g).inodeBitmap < |img.d|
    requires table == img.Gd(g).inodeTable && bitmap == img.d[img.Gd(g).inodeBitmap].bits
    requires good ==> Tracks(c, img, owners0, Upto(img, g)) && Fine(img, owners0, Upto(img, g))
    modifies c`owners, c`directoryRefs, c`inodeLinks, c`inodeChecked
    ensures Fits(c, img)
    ensures good ==> (errors == 0 <==> Fine(img, owners0, Upto(img, g + 1)))
    ensures good && errors == 0 ==> Tracks(c, img, owners0, Upto(img, g + 1))
  {
    hide Img.Allocs, Img.IAllocs, Img.Readable, Tracks, Fine, Img.Gd;
    assert Upto(img, g + 1) == Upto(img, g) + count && (count > 0 ==> Upto(img, g) == g * IPG);
    errors := 0;
    var i := 0;
    while i < count
      invariant 0 <= i <= count && Fits(c, img)
      invariant good ==> (errors == 0 <==> Fine(img, owners0, Upto(img, g) + i))
      invariant good && errors == 0 ==> Tracks(c, img, owners0, Upto(img, g) + i)
    {
      Index(img, g, i);
      var n := g * IPG + i;
      if bitmap[i] && (n == 1 || n >= 10) {
        var inode := c.dev[table + i / ITB].inodes[i % ITB];
        var more := CheckOne(c, img, n, inode, owners0, good && errors == 0);
        if good && errors != 0 { StaysBad(img, owners0, n); }
        errors := errors + more;
      } else {
        SkipInode(c, img, owners0, n);
      }
      i := i + 1;
    }
  }

  lemma StaysBad(img: Img, owners0: seq<nat>, n: nat)
    requires img.Readable() && n < img.inodes && !Fine(img, owners0, n)
    ensures !Fine(img, owners0, n + 1)
  {
    hide Avail, Img.InodeAt, Img.Allocs, Img.IAllocs, Img.Readable, Img.Checked, TreeCnt, Img.InodeSane;
    forall b: nat ensures img.Owned(n + 1, b) >= img.Owned(n, b) {}
  }

  lemma Index(img: Img, g: nat, i: nat)
    requires img.Readable() && g < img.Groups() && i < img.NIno(g) && img.Gd(g).inodeBitmap < |img.d|
    requires img.Gd(g).inodeTable + ITB <= |img.d|
    ensures g * IPG + i < img.inodes && (g * IPG + i) / IPG == g && (g * IPG + i) % IPG == i
    ensures img.IAlloc(g * IPG + i) == img.d[img.Gd(g).inodeBitmap].bits[i]
    ensures (g * IPG + i) % ITB == i % ITB
    ensures img.Gd(g).inodeTable + i / ITB < |img.d|
    ensures img.InodeAt(g * IPG + i) == img.d[img.Gd(g).inodeTable + i / ITB].inodes[i % ITB]
  {
    Place(g, i);
  }

  lemma Place(g: nat, i: nat)
    requires i < IPG
    ensures (g * IPG + i) / IPG == g && (g * IPG + i) % IPG == i && (g * IPG + i) % ITB == i % ITB
  {}
}
