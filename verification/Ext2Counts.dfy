/** Free counts over the whole volume: what the superblock's count is the number of. */
module Ext2Counts {
  import opened Sums
  import opened Ext2Layout
  import opened Ext2State
  import opened Ext2Steps
  import opened Ext2Volume
  import opened Ext2Bitmaps
  import opened Ext2Alloc

  ghost function FreeTerm(fs: Fs): nat -> nat
    requires Shape(fs)
  {
    (b: nat) => One(b < fs.geo.blocks && !Alloc(fs, b))
  }

  /** Number of free blocks of the volume. */
  ghost function FreeBlocks(fs: Fs): nat
    requires Shape(fs)
  {
    Sum(fs.geo.blocks, FreeTerm(fs))
  }

  lemma {:induction false} SumConcat(m: nat, n: nat, f: nat -> nat, g: nat -> nat)
    requires forall k: nat | k < n :: g(k) == f(m + k)
    ensures Sum(m + n, f) == Sum(m, f) + Sum(n, g)
  {
    if n > 0 { SumConcat(m, n - 1, f, g); }
  }

  /** The blocks of the first g groups. */
  ghost function Before(geo: Geo, g: nat): nat { if g < geo.groups then g * BPG else geo.blocks }

  lemma NextGroup(geo: Geo, g: nat)
    requires geo.Valid() && g < geo.groups
    ensures Before(geo, g) == g * BPG && Before(geo, g + 1) == g * BPG + geo.GroupBlocks(g)
  {
    GroupEnds(geo, g);
  }

  lemma GroupBit(fs: Fs, g: nat, k: nat)
    requires Shape(fs) && g < fs.geo.groups && k < fs.geo.GroupBlocks(g)
    ensures FreeTerm(fs)(g * BPG + k) == BoolTerm(fs.bits[g])(k)
  {
    GroupEnds(fs.geo, g);
    hide Geo.Valid, Geo.GroupBlocks, Geo.DataRel;
    PlaceOf(g, k);
  }

  lemma GroupFree(fs: Fs, g: nat)
    requires Shape(fs) && g < fs.geo.groups
    ensures Sum(Before(fs.geo, g + 1), FreeTerm(fs)) ==
      Sum(Before(fs.geo, g), FreeTerm(fs)) + Clear(fs.bits[g], fs.geo.GroupBlocks(g))
  {
    hide Geo.Valid, Geo.GroupBlocks, Before, Sum, FreeTerm, BoolTerm, Shape;
    GroupFits(fs, g);
    var m, n, f, h := g * BPG, fs.geo.GroupBlocks(g), FreeTerm(fs), BoolTerm(fs.bits[g]);
    forall k: nat | k < n ensures h(k) == f(m + k) { GroupBit(fs, g, k); }
    SumConcat(m, n, f, h);
  }

  lemma GroupFits(fs: Fs, g: nat)
    requires Shape(fs) && g < fs.geo.groups
    ensures g < |fs.bits| && g * BPG <= fs.geo.blocks && fs.geo.GroupBlocks(g) <= BPG == |fs.bits[g]|
    ensures Before(fs.geo, g) == g * BPG && Before(fs.geo, g + 1) == g * BPG + fs.geo.GroupBlocks(g)
  {
    NextGroup(fs.geo, g);
    GroupEnds(fs.geo, g);
  }

  ghost function CountTerm(fs: Fs): nat -> nat { (k: nat) => if k < |fs.freeB| then fs.freeB[k] else 0 }

  lemma {:induction false} GroupsFree(fs: Fs, g: nat)
    requires Shape(fs) && BlockCounts(fs) && g <= fs.geo.groups
    ensures Sum(g, CountTerm(fs)) == Sum(Before(fs.geo, g), FreeTerm(fs))
  {
    hide Geo.Valid, Geo.GroupBlocks, FreeTerm, Clear;
    if g > 0 {
      hide Before;
      GroupsFree(fs, g - 1);
      GroupFree(fs, g - 1);
    } else {
      FirstPlaces(fs);
    }
  }

  /** The superblock's count is the number of free blocks. */
  lemma FreeTotal(fs: Fs)
    requires Shape(fs) && BlockCounts(fs)
    ensures fs.totB == FreeBlocks(fs)
  {
    hide FreeTerm, Clear;
    GroupsFree(fs, fs.geo.groups);
    SumEqual(|fs.freeB|, CountTerm(fs), (k: nat) => if k < |fs.freeB| then fs.freeB[k] else 0);
  }

  lemma {:induction false} CountIn(n: nat, t: set<nat>, f: nat -> nat)
    requires (forall b | b in t :: b < n) && forall b: nat | b < n :: f(b) == One(b in t)
    ensures Sum(n, f) == |t|
  {
    if n > 0 {
      var t2 := t - {n - 1};
      forall b: nat | b < n - 1 ensures f(b) == One(b in t2) {}
      assert f(n - 1) == One(n - 1 in t);
      CountIn(n - 1, t2, (b: nat) => One(b in t2));
      SumEqual(n - 1, f, (b: nat) => One(b in t2));
    } else {
      assert t == {};
    }
  }

  /** Taking the free blocks of t takes their number off the count. */
  lemma TakenFromTotal(f: Fs, p: Fs, t: set<nat>)
    requires BitsSet(f, p, t, true) && BlockCounts(f) && forall b | b in t :: !Alloc(f, b)
    ensures p.totB + |t| == f.totB
  {
    hide Geo.Valid, Alloc;
    FreeTotal(f);
    FreeTotal(p);
    AllocAfter(f, p, t, true);
    var g := (b: nat) => One(b in t);
    CountIn(f.geo.blocks, t, g);
    SumAdd(f.geo.blocks, FreeTerm(p), g, FreeTerm(f));
  }

  /** Giving back the allocated blocks of t adds their number to the count. */
  lemma GivenToTotal(f: Fs, p: Fs, t: set<nat>)
    requires BitsSet(f, p, t, false) && BlockCounts(f) && forall b | b in t :: Alloc(f, b)
    ensures p.totB == f.totB + |t|
  {
    hide Geo.Valid, Alloc;
    FreeTotal(f);
    FreeTotal(p);
    AllocAfter(f, p, t, false);
    var g := (b: nat) => One(b in t);
    CountIn(f.geo.blocks, t, g);
    SumAdd(f.geo.blocks, FreeTerm(f), g, FreeTerm(p));
  }

  lemma ClearNone(bits: seq<bool>, n: nat)
    requires n <= |bits| && forall x | 0 <= x < n :: bits[x]
    ensures Clear(bits, n) == 0
  {
    SumZero(n, BoolTerm(bits));
  }

  lemma NoneClear(fs: Fs, g: nat)
    requires Shape(fs) && BlockCounts(fs) && g < fs.geo.groups
    requires g * BPG <= fs.geo.blocks && fs.geo.GroupBlocks(g) <= BPG && FirstClear(fs.bits[g], 0, fs.geo.GroupBlocks(g)) == fs.geo.GroupBlocks(g)
    ensures fs.freeB[g] == 0
  {
    GroupFits(fs, g);
    hide Geo.Valid, Geo.GroupBlocks, Clear;
    ClearNone(fs.bits[g], fs.geo.GroupBlocks(g));
  }

  lemma {:induction false} PickNothing(fs: Fs, g: nat)
    requires Shape(fs) && BlockCounts(fs) && g <= fs.geo.groups && Alloc(fs, 0) && Pick(fs, g) == 0
    ensures forall k | g <= k < fs.geo.groups :: fs.freeB[k] == 0
    decreases fs.geo.groups - g
  {
    hide BlockCounts, Geo.Valid, Geo.GroupBlocks, FirstClear;
    if g < fs.geo.groups {
      GroupFits(fs, g);
      GroupRoom(fs, g);
      var n := fs.geo.GroupBlocks(g);
      if fs.freeB[g] != 0 && FirstClear(fs.bits[g], 0, n) == n { NoneClear(fs, g); }
      PickNothing(fs, g + 1);
    }
  }

  /** Block 0 is taken, so a clear bit is never block 0. */
  lemma GroupRoom(fs: Fs, g: nat)
    requires Shape(fs) && g < fs.geo.groups && Alloc(fs, 0)
    ensures g * BPG <= fs.geo.blocks && fs.geo.GroupBlocks(g) <= BPG
    ensures FirstClear(fs.bits[g], 0, fs.geo.GroupBlocks(g)) < fs.geo.GroupBlocks(g) ==>
      g * BPG + FirstClear(fs.bits[g], 0, fs.geo.GroupBlocks(g)) != 0
  {
    GroupEnds(fs.geo, g);
  }

  /** The allocator gives up only on a full volume. */
  lemma PickEmpty(fs: Fs)
    requires Shape(fs) && BlockCounts(fs) && Alloc(fs, 0)
    ensures Pick(fs, 0) == 0 <==> fs.totB == 0
  {
    var f := (k: nat) => if k < |fs.freeB| then fs.freeB[k] else 0;
    SumZero(|fs.freeB|, f);
    if Pick(fs, 0) == 0 {
      PickNothing(fs, 0);
    } else {
      PickIsFree(fs, 0);
      FreeTotal(fs);
      SumMember(fs.geo.blocks, FreeTerm(fs), Pick(fs, 0));
    }
  }
}
