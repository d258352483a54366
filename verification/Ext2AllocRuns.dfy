/** Many allocations at once: the cached transaction gives what repeated scans from zero give. */
module Ext2AllocRuns {
  import opened Ext2Layout
  import opened Ext2State
  import opened Ext2Steps
  import opened Ext2Volume
  import opened Ext2Bitmaps
  import opened Ext2Engine
  import opened Ext2Alloc

  /** The state after one scan from zero. */
  ghost function Picked(fs: Fs): (p: Fs)
    requires Shape(fs) && Alloc(fs, 0)
    ensures Shape(p) && Alloc(p, 0) && p.geo == fs.geo
  {
    if Pick(fs, 0) == 0 then fs
    else
      PickIsFree(fs, 0);
      PickedShape(fs, Pick(fs, 0));
      WithBit(fs, Pick(fs, 0), true)
  }

  lemma PickedShape(fs: Fs, b: nat)
    requires Shape(fs) && b < fs.geo.blocks && Alloc(fs, 0)
    ensures Shape(WithBit(fs, b, true)) && forall x: nat | x < fs.geo.blocks :: Alloc(WithBit(fs, b, true), x) <==> x == b || Alloc(fs, x)
  {
    InGroups(fs.geo, b);
    FlipShape(fs, b);
    forall x: nat | x < fs.geo.blocks ensures Alloc(WithBit(fs, b, true), x) <==> x == b || Alloc(fs, x) {
      if x / BPG == b / BPG && x % BPG == b % BPG { assert x == x / BPG * BPG + x % BPG == b; }
    }
  }

  lemma FlipShape(fs: Fs, b: nat)
    requires Shape(fs) && b / BPG < fs.geo.groups && b < fs.geo.blocks
    ensures Shape(WithBit(fs, b, true)) && WithBit(fs, b, true).geo == fs.geo
    ensures WithBit(fs, b, true).bits == fs.bits[b / BPG := fs.bits[b / BPG][b % BPG := true]]
  {
    hide Geo.Valid;
  }

  lemma OnDiskShape(v: Volume)
    requires v.OnDisk()
    ensures Shape(v.fs)
  {}

  /** The blocks that k scans from zero choose, 0 where there is none, and the state they leave. */
  ghost function Scans(fs: Fs, k: nat): (r: (seq<nat>, Fs))
    requires Shape(fs) && Alloc(fs, 0)
    ensures |r.0| == k && Shape(r.1) && Alloc(r.1, 0) && r.1.geo == fs.geo
  {
    if k == 0 then ([], fs)
    else
      var (bs, p) := Scans(fs, k - 1);
      (bs + [Pick(p, 0)], Picked(p))
  }

  /** No block is handed out twice, and none that was in use. */
  lemma {:induction false} ScansNew(fs: Fs, k: nat)
    requires Shape(fs) && Alloc(fs, 0)
    ensures var (bs, p) := Scans(fs, k);
      && (forall i | 0 <= i < k && bs[i] != 0 :: bs[i] < fs.geo.blocks && !Alloc(fs, bs[i]) && Alloc(p, bs[i]))
      && (forall i, j | 0 <= i < j < k && bs[i] != 0 :: bs[i] != bs[j])
      && (forall x: nat | Alloc(fs, x) :: Alloc(p, x))
  {
    hide Alloc, Pick, Geo.Valid, WithBit, Shape;
    if k > 0 {
      ScansNew(fs, k - 1);
      OneMore(Scans(fs, k - 1).1);
      InRange(fs);
    }
  }

  lemma OneMore(p: Fs)
    requires Shape(p) && Alloc(p, 0)
    ensures Pick(p, 0) != 0 ==> Pick(p, 0) < p.geo.blocks && !Alloc(p, Pick(p, 0)) && Alloc(Picked(p), Pick(p, 0))
    ensures forall x: nat | Alloc(p, x) :: Alloc(Picked(p), x)
  {
    if Pick(p, 0) != 0 {
      PickIsFree(p, 0);
      PickedShape(p, Pick(p, 0));
    }
  }

  lemma InRange(fs: Fs)
    requires Shape(fs)
    ensures forall x: nat | Alloc(fs, x) :: x < fs.geo.blocks
  {}

  /** k calls of ext2_alloc_block. */
  method AllocEach(v: Volume, k: nat) returns (bs: seq<nat>)
    requires v.Synced() && Alloc(v.fs, 0)
    modifies v`dev, v`sb, v`gd, v`fs
    ensures v.Synced() && (bs, v.fs) == Scans(old(v.fs), k)
  {
    hide Rep, Loaded, Alloc, Pick, WithBit, Shape;
    OnDiskShape(v);
    bs := [];
    while |bs| < k
      invariant |bs| <= k && v.Synced() && Shape(v.fs) && Alloc(v.fs, 0) && (bs, v.fs) == Scans(old(v.fs), |bs|)
    {
      ghost var was := v.fs;
      var b := AllocBlock(v);
      assert v.fs == Picked(was);
      bs := bs + [b];
    }
  }

  /** k calls of ext2_alloc_block_ctx, then the commit. */
  method AllocTogether(v: Volume, k: nat) returns (bs: seq<nat>)
    requires v.Synced() && Alloc(v.fs, 0)
    modifies v`dev, v`sb, v`gd, v`fs
    ensures v.Synced() && (bs, v.fs) == Scans(old(v.fs), k)
  {
    hide Rep, Loaded, Alloc, Pick, WithBit, Shape;
    OnDiskShape(v);
    var ctx := new AllocCtx(v);
    ghost var fs0 := v.fs;
    bs := [];
    while |bs| < k
      invariant |bs| <= k && v.fs == fs0 && ctx.Ready(v) && ctx.CursorsBehind() && Shape(ctx.Pending(v)) && Alloc(ctx.Pending(v), 0)
      invariant (bs, ctx.Pending(v)) == Scans(fs0, |bs|)
      invariant fresh(ctx)
    {
      ghost var was := ctx.Pending(v);
      var b := ctx.AllocBlock(v);
      assert ctx.Pending(v) == Picked(was);
      bs := bs + [b];
    }
    ctx.Commit(v);
  }
}
