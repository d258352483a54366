/** What a clean verdict tells about an image, whoever wrote it. */
module FsckSound {
  import opened Sums
  import opened Ext2Layout
  import opened FsckSpec
  import opened FsckDirectory

  ghost function ImageOf(d: seq<Block>): Img
    requires 1 <= |d|
  {
    Img(d, d[0].super.blocksCount, d[0].super.inodesCount)
  }

  /** The tree of inode k, which the checker looks into, meets block b. */
  ghost predicate Holds(img: Img, k: nat, b: nat)
    requires img.Readable()
  {
    k < img.inodes && img.Checked(k) && TreeCnt(img.d, img.InodeAt(k), b) > 0
  }

  lemma HoldsIsOwned(img: Img, k: nat, b: nat)
    requires img.Readable() && Holds(img, k, b)
    ensures TreeCnt(img.d, img.InodeAt(k), b) <= img.Owned(img.inodes, b)
  {
    SumMember(img.inodes, img.TreeTerm(b), k);
  }

  /** Trees are in range, allocated, clear of metadata, and meet no block twice. */
  lemma TreesInBounds(d: seq<Block>, k: nat, b: nat)
    requires Clean(d) && Holds(ImageOf(d), k, b)
    ensures var img := ImageOf(d);
      b < img.blocks && img.BAlloc(b) && !img.IsMetadata(b) && TreeCnt(d, img.InodeAt(k), b) == 1
  {
    hide Img.GroupSane, Img.InodeSane, Img.References, Img.LinksOf, Img.HasGeometry, Img.IsMetadata;
    HoldsIsOwned(ImageOf(d), k, b);
  }

  lemma TwoHolders(img: Img, k: nat, k2: nat, b: nat)
    requires img.Readable() && k < k2 && Holds(img, k, b) && Holds(img, k2, b)
    ensures img.Owned(img.inodes, b) >= 2
  {
    hide TreeCnt, Img.HasGeometry, Img.HasInodeMap, Img.HasBlockMap, Img.InodeAt, Img.IAlloc;
    SumTwoMembers(img.inodes, img.TreeTerm(b), k, k2);
  }

  /** No two inodes share a block. */
  lemma TreesDisjoint(d: seq<Block>, k: nat, k2: nat, b: nat)
    requires Clean(d) && Holds(ImageOf(d), k, b) && Holds(ImageOf(d), k2, b)
    ensures k == k2
  {
    hide Img.GroupSane, Img.InodeSane, Img.References, Img.LinksOf, Img.HasGeometry, Img.IsMetadata, Img.Owned, Holds,
      Img.HasInodeMap, Img.HasBlockMap;
    if k < k2 { TwoHolders(ImageOf(d), k, k2, b); }
    if k2 < k { TwoHolders(ImageOf(d), k2, k, b); }
  }

  /** Every allocated block has an owner: metadata, or one inode. */
  lemma EveryBlockOwned(d: seq<Block>, b: nat)
    requires Clean(d) && ImageOf(d).BAlloc(b)
    ensures !ImageOf(d).IsMetadata(b) <==> exists k: nat :: Holds(ImageOf(d), k, b)
  {
    hide Img.GroupSane, Img.InodeSane, Img.References, Img.LinksOf, Img.HasGeometry, Img.IsMetadata;
    var img := ImageOf(d);
    if img.IsMetadata(b) {
      forall k: nat ensures !Holds(img, k, b) {
        if Holds(img, k, b) { TreesInBounds(d, k, b); }
      }
    } else {
      SumZero(img.inodes, img.TreeTerm(b));
      var k: nat :| k < img.inodes && img.TreeTerm(b)(k) != 0;
      assert Holds(img, k, b);
    }
  }

  /** An inode the checker looks into is named by some directory; a directory record names only allocated inodes. */
  lemma NoOrphans(d: seq<Block>, k: nat)
    requires Clean(d) && ImageOf(d).Checked(k)
    ensures var img := ImageOf(d);
      exists p: nat :: p < img.inodes && img.Checked(p) && IsDir(img.InodeAt(p)) &&
        ScanCnt(d, img.Allocs(), img.InodeAt(p), ByIno(k + 1), 12) > 0
  {
    hide Img.GroupSane, Img.HasGeometry, Img.IsMetadata, Img.Owned, Img.BAlloc, FileType, ScanCnt;
    var img := ImageOf(d);
    assert img.CheckedIno(k + 1) && img.InodeSane(k);
    assert img.References(img.inodes, k + 1) == img.LinksOf(k + 1);
    SumZero(img.inodes, img.RefTerm(k + 1));
    var p: nat :| p < img.inodes && img.RefTerm(k + 1)(p) != 0;
    assert img.Checked(p);
  }
}
