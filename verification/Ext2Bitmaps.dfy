/** Choosing, taking and giving back one bitmap bit, with the counters. */
module Ext2Bitmaps {
  import opened Sums
  import opened Ext2Layout
  import opened Ext2State
  import opened Ext2Steps
  import opened Ext2DirSteps
  import opened Ext2Volume

  /** A 16-bit counter going up. */
  function Inc16(x: nat): nat { (x + 1) % 0x1_0000 }
  function Inc32(x: nat): nat { (x + 1) % 0x1_0000_0000 }
  /** "if (x) x--" */
  function Dec(x: nat): nat { if x > 0 then x - 1 else 0 }

  lemma ClearFlip(bits: seq<bool>, l: nat, v: bool, n: nat)
    requires l < |bits| && n <= |bits|
    ensures Clear(bits[l := v], n) + One(l < n && !bits[l]) == Clear(bits, n) + One(l < n && !v)
    ensures Clear(bits, n) <= n
  {
    var f, f2 := BoolTerm(bits), BoolTerm(bits[l := v]);
    if l < n {
      SumUpdate(n, f, f2, l);
    } else {
      SumEqual(n, f, f2);
    }
    SumBound(n, f, 1);
  }

  lemma TotalFlip(s: seq<nat>, g: nat, x: nat, c: nat)
    requires g < |s|
    ensures Total(s[g := x]) + s[g] == Total(s) + x
    ensures s[g] <= Total(s)
    ensures (forall k | 0 <= k < |s| :: s[k] <= c) ==> Total(s) <= |s| * c
  {
    var f := (k: nat) => if k < |s| then s[k] else 0;
    var f2 := (k: nat) => if k < |s[g := x]| then s[g := x][k] else 0;
    SumUpdate(|s|, f, f2, g);
    SumMember(|s|, f, g);
    if forall k | 0 <= k < |s| :: s[k] <= c { SumBound(|s|, f, c); }
  }

  // ---- blocks ----

  /** First clear bit in [lo, hi), or hi. */
  ghost function FirstClear(bits: seq<bool>, lo: nat, hi: nat): (l: nat)
    requires lo <= hi <= |bits|
    ensures lo <= l <= hi && (forall x | lo <= x < l :: bits[x]) && (l < hi ==> !bits[l])
    decreases hi - lo
  {
    if lo == hi || !bits[lo] then lo else FirstClear(bits, lo + 1, hi)
  }

  lemma {:induction false} FirstClearUnique(bits: seq<bool>, lo: nat, hi: nat, l: nat)
    requires lo <= l <= hi <= |bits| && (forall x | lo <= x < l :: bits[x]) && (l < hi ==> !bits[l])
    ensures FirstClear(bits, lo, hi) == l
    decreases hi - lo
  {
    if lo < l { FirstClearUnique(bits, lo + 1, hi, l); }
  }

  /** The block a scan from bit zero of every group would choose; 0 when there is none. */
  ghost function Pick(fs: Fs, g: nat): nat
    requires Shape(fs) && g <= fs.geo.groups
    decreases fs.geo.groups - g
  {
    if g == fs.geo.groups then 0
    else if fs.freeB[g] == 0 then Pick(fs, g + 1)
    else
      var l := FirstClear(fs.bits[g], 0, fs.geo.GroupBlocks(g));
      if l < fs.geo.GroupBlocks(g) then g * BPG + l else Pick(fs, g + 1)
  }

  /** Block b's bit becomes v and the counters follow. */
  ghost function WithBit(fs: Fs, b: nat, v: bool): Fs
    requires Shape(fs) && b < fs.geo.blocks
  {
    var g, l := b / BPG, b % BPG;
    fs.(bits := fs.bits[g := fs.bits[g][l := v]],
        freeB := fs.freeB[g := if v then Dec(fs.freeB[g]) else Inc16(fs.freeB[g])],
        totB := if v then Dec(fs.totB) else Inc32(fs.totB))
  }

  /** Counters of a family of bitmaps survive flipping one bit. */
  lemma CountersFlip(bits: seq<seq<bool>>, counts: seq<nat>, tot: nat, n: nat -> nat, g: nat, l: nat, v: bool)
    requires g < |bits| == |counts| && |bits| * BPG < 0x1_0000_0000 - 1
    requires forall k: nat | k < |bits| :: n(k) <= BPG && |bits[k]| == BPG && counts[k] == Clear(bits[k], n(k))
    requires tot == Total(counts) && l < n(g) && bits[g][l] != v
    ensures
      var c2 := counts[g := if v then Dec(counts[g]) else Inc16(counts[g])];
      && (forall k: nat | k < |bits| :: c2[k] == Clear(bits[g := bits[g][l := v]][k], n(k)))
      && (if v then Dec(tot) else Inc32(tot)) == Total(c2)
  {
    hide Clear, Total;
    ClearFlip(bits[g], l, v, n(g));
    ClearFlip(bits[g][l := v], l, v, n(g));
    var c2 := counts[g := if v then Dec(counts[g]) else Inc16(counts[g])];
    assert c2[g] == Clear(bits[g][l := v], n(g));
    forall k | 0 <= k < |counts| ensures counts[k] <= BPG { ClearFlip(bits[k], 0, v, n(k)); }
    TotalFlip(counts, g, c2[g], BPG);
  }

  lemma WithBitSets(fs: Fs, b: nat, v: bool)
    requires Shape(fs) && BlockCounts(fs) && b < fs.geo.blocks && Alloc(fs, b) != v
    ensures BitsSet(fs, WithBit(fs, b, v), {b}, v)
  {
    hide Clear, Total, Inc16, Inc32, Dec, Geo.DataRel;
    var g, l := b / BPG, b % BPG;
    var n := (k: nat) => if k < fs.geo.groups && k * BPG <= fs.geo.blocks then fs.geo.GroupBlocks(k) else 0;
    assert l < n(g);
    GroupsBound(fs.geo);
    CountersFlip(fs.bits, fs.freeB, fs.totB, n, g, l, v);
    var fs2 := WithBit(fs, b, v);
    forall g2, l2 | 0 <= g2 < fs.geo.groups && 0 <= l2 < BPG
      ensures fs2.bits[g2][l2] == if g2 * BPG + l2 in {b} then v else fs.bits[g2][l2]
    {
      if g2 * BPG + l2 == b { assert g2 == g && l2 == l; }
    }
  }

  lemma GroupsBound(geo: Geo)
    requires geo.Valid()
    ensures geo.groups * BPG < 0x1_0000_0000 - 1 && geo.groups * IPG < 0x1_0000_0000 - 1
  {}

  /** What a scan picks is a free block of the data area. */
  lemma {:induction false} PickIsFree(fs: Fs, g: nat)
    requires Shape(fs) && g <= fs.geo.groups && Pick(fs, g) != 0
    ensures Pick(fs, g) < fs.geo.blocks && !Alloc(fs, Pick(fs, g))
    ensures g <= Pick(fs, g) / BPG < fs.geo.groups && fs.freeB[Pick(fs, g) / BPG] > 0
    decreases fs.geo.groups - g
  {
    if fs.freeB[g] == 0 || FirstClear(fs.bits[g], 0, fs.geo.GroupBlocks(g)) == fs.geo.GroupBlocks(g) {
      PickIsFree(fs, g + 1);
    } else {
      GroupEnds(fs.geo, g);
    }
  }

  // ---- inodes ----

  ghost function WithIBit(fs: Fs, k: nat, v: bool): Fs
    requires Shape(fs) && k < |fs.inodes|
  {
    var g, l := k / IPG, k % IPG;
    fs.(ibits := fs.ibits[g := fs.ibits[g][l := v]],
        freeI := fs.freeI[g := if v then Dec(fs.freeI[g]) else Inc16(fs.freeI[g])],
        totI := if v then Dec(fs.totI) else Inc32(fs.totI))
  }

  lemma WithIBitCounts(fs: Fs, k: nat, v: bool)
    requires Shape(fs) && InodeCounts(fs) && k < |fs.inodes| && IAlloc(fs, k) != v
    ensures Shape(WithIBit(fs, k, v)) && InodeCounts(WithIBit(fs, k, v))
  {
    hide Clear, Total, Inc16, Inc32, Dec, Geo.DataRel;
    GroupsBound(fs.geo);
    CountersFlip(fs.ibits, fs.freeI, fs.totI, (k: nat) => IPG, k / IPG, k % IPG, v);
  }

  lemma WithIBitSets(fs: Fs, k: nat, v: bool)
    requires Shape(fs) && InodeCounts(fs) && k < |fs.inodes| && IAlloc(fs, k) != v
    ensures IBitSet(fs, WithIBit(fs, k, v), k, v)
  {
    hide Geo.Valid, InodeCounts;
    WithIBitCounts(fs, k, v);
    var fs2 := WithIBit(fs, k, v);
    forall j: nat ensures IAlloc(fs2, j) == if j == k then v else IAlloc(fs, j) {
      if j / IPG == k / IPG && j % IPG == k % IPG { assert j == j / IPG * IPG + j % IPG == k; }
    }
  }
}
