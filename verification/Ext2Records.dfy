/** Editing the chain of directory records in one block. */
module Ext2Records {
  import opened Ext2Layout
  import opened Ext2Frames
  import opened Ext2Steps

  /** The loop that starts at from and advances by rec_len arrives at pos. */
  ghost predicate OnChain(recs: seq<Rec>, from: nat, pos: nat)
    requires |recs| == BS
    decreases BS - from
  {
    from == pos || (from < pos && RecFits(recs, from) && OnChain(recs, from + recs[from].recLen, pos))
  }

  lemma {:induction false} ChainNext(recs: seq<Rec>, from: nat, pos: nat)
    requires |recs| == BS && OnChain(recs, from, pos) && RecFits(recs, pos)
    ensures OnChain(recs, from, pos + recs[pos].recLen)
    decreases BS - from
  {
    if from != pos {
      ChainNext(recs, from + recs[from].recLen, pos);
    }
  }

  lemma {:induction false} TilesAt(recs: seq<Rec>, from: nat, pos: nat)
    requires |recs| == BS && Tiles(recs, from) && OnChain(recs, from, pos)
    ensures Tiles(recs, pos)
    decreases BS - from
  {
    if from != pos {
      TilesAt(recs, from + recs[from].recLen, pos);
    }
  }

  /** Records of recs that lie wholly before lo or start at or after hi are the same in recs2. */
  ghost predicate KeptOutside(recs: seq<Rec>, recs2: seq<Rec>, lo: nat, hi: nat) {
    && |recs| == |recs2| == BS
    && (forall x: nat | x < BS && x + 8 + |recs[x].name| <= lo :: recs2[x] == recs[x])
    && (forall x: nat | hi <= x < BS :: recs2[x] == recs[x])
  }

  lemma {:induction false} SuffixKept(recs: seq<Rec>, recs2: seq<Rec>, x: nat, q: Query)
    requires |recs| == |recs2| == BS && forall y: nat | x <= y < BS :: recs2[y] == recs[y]
    ensures RecCnt(recs2, x, q) == RecCnt(recs, x, q)
    ensures Tiles(recs2, x) == Tiles(recs, x)
    decreases BS - x
  {
    if RecFits(recs, x) {
      SuffixKept(recs, recs2, x + recs[x].recLen, q);
    }
  }

  // ---- insertion into slack ----

  /** recs2 is recs with r put into the slack of the record at pos. */
  ghost predicate Inserted(recs: seq<Rec>, recs2: seq<Rec>, pos: nat, r: Rec) {
    && |recs| == BS && pos < BS && RecFits(recs, pos)
    && var min := MinRec(|recs[pos].name|);
    && min + MinRec(|r.name|) <= recs[pos].recLen
    && KeptOutside(recs, recs2, pos, pos + recs[pos].recLen)
    && recs2[pos] == recs[pos].(recLen := min)
    && recs2[pos + min] == r && r.recLen == recs[pos].recLen - min
  }

  lemma InsertedHere(recs: seq<Rec>, recs2: seq<Rec>, pos: nat, r: Rec, q: Query)
    requires Inserted(recs, recs2, pos, r) && Tiles(recs, pos)
    ensures RecCnt(recs2, pos, q) == RecCnt(recs, pos, q) + One(Hit(q, r))
    ensures Tiles(recs2, pos)
  {
    var min, next := MinRec(|recs[pos].name|), pos + recs[pos].recLen;
    SuffixKept(recs, recs2, next, q);
    MinRecRoom(|recs[pos].name|);
    MinRecRoom(|r.name|);
    hide MinRec;
    assert RecCnt(recs2, pos + min, q) == One(Hit(q, r)) + RecCnt(recs2, next, q) by { hide Tiles; }
    assert Tiles(recs2, pos + min) by { hide RecCnt, Hit; }
    assert Hit(q, recs2[pos]) == Hit(q, recs[pos]);
  }

  lemma MinRecRoom(n: nat)
    ensures 8 + n <= MinRec(n) && MinRec(n) % 4 == 0 && MinRec(n) >= 8
  {}

  /** Insertion adds exactly the answers of r, and the block stays tiled. */
  lemma {:induction false} InsertCounts(recs: seq<Rec>, recs2: seq<Rec>, from: nat, pos: nat, r: Rec, q: Query)
    requires Inserted(recs, recs2, pos, r) && Tiles(recs, from) && OnChain(recs, from, pos)
    ensures RecCnt(recs2, from, q) == RecCnt(recs, from, q) + One(Hit(q, r))
    ensures Tiles(recs2, from)
    decreases BS - from
  {
    if from == pos {
      InsertedHere(recs, recs2, pos, r, q);
    } else {
      ChainBefore(recs, from, pos);
      InsertCounts(recs, recs2, from + recs[from].recLen, pos, r, q);
    }
  }

  lemma ChainBefore(recs: seq<Rec>, from: nat, pos: nat)
    requires |recs| == BS && Tiles(recs, from) && OnChain(recs, from, pos) && from < pos
    ensures from + 8 + |recs[from].name| <= from + recs[from].recLen <= pos
  {}

  // ---- removal ----

  /** recs2 is recs with the record at pos swallowed by its predecessor. */
  ghost predicate Merged(recs: seq<Rec>, recs2: seq<Rec>, prev: nat, pos: nat) {
    && |recs| == BS && prev < pos < BS && RecFits(recs, prev) && RecFits(recs, pos)
    && pos == prev + recs[prev].recLen
    && KeptOutside(recs, recs2, prev, prev + 8)
    && recs2[prev] == recs[prev].(recLen := recs[prev].recLen + recs[pos].recLen)
  }

  lemma {:induction false} MergeCounts(recs: seq<Rec>, recs2: seq<Rec>, from: nat, prev: nat, pos: nat, q: Query)
    requires Merged(recs, recs2, prev, pos) && Tiles(recs, from) && OnChain(recs, from, prev)
    ensures RecCnt(recs, from, q) == RecCnt(recs2, from, q) + One(Hit(q, recs[pos]))
    ensures Tiles(recs2, from)
    decreases BS - from
  {
    if from == prev {
      var next := pos + recs[pos].recLen;
      assert Tiles(recs, pos) && RecFits(recs, pos);
      SuffixKept(recs, recs2, next, q);
      assert Tiles(recs2, from) by { hide RecCnt, Hit; }
      hide Tiles;
      assert Hit(q, recs2[prev]) == Hit(q, recs[prev]);
      assert RecCnt(recs, pos, q) == One(Hit(q, recs[pos])) + RecCnt(recs, next, q);
    } else {
      ChainBefore(recs, from, prev);
      MergeCounts(recs, recs2, from + recs[from].recLen, prev, pos, q);
    }
  }

  /** recs2 is recs with the first record marked unused. */
  ghost predicate Blanked(recs: seq<Rec>, recs2: seq<Rec>) {
    && |recs| == BS && RecFits(recs, 0)
    && KeptOutside(recs, recs2, 0, 8)
    && recs2[0] == recs[0].(ino := 0)
  }

  lemma BlankCounts(recs: seq<Rec>, recs2: seq<Rec>, q: Query)
    requires Blanked(recs, recs2) && Tiles(recs, 0)
    ensures RecCnt(recs, 0, q) == RecCnt(recs2, 0, q) + One(Hit(q, recs[0]))
    ensures Tiles(recs2, 0)
  {
    SuffixKept(recs, recs2, recs[0].recLen, q);
  }

  lemma SoleCounts(recs: seq<Rec>, q: Query)
    requires |recs| == BS && recs[0].recLen == BS && 8 + |recs[0].name| <= BS
    ensures RecCnt(recs, 0, q) == One(Hit(q, recs[0]))
    ensures Tiles(recs, 0)
  {
    assert RecCnt(recs, BS, q) == 0;
    assert Tiles(recs, BS);
  }

  // ---- looking names up ----

  lemma {:induction false} FindCounts(recs: seq<Rec>, from: nat, nm: string)
    requires |recs| == BS
    ensures FindFrom(recs, from, nm).ino != 0 <==> RecCnt(recs, from, ByName(nm)) > 0
    decreases BS - from
  {
    if RecFits(recs, from) {
      FindCounts(recs, from + recs[from].recLen, nm);
    }
  }

  ghost predicate SameTarget(r: Rec, r2: Rec) { r.ino == r2.ino && (r.ino != 0 ==> r.ftype == r2.ftype) }

  lemma {:induction false} SuffixFind(recs: seq<Rec>, recs2: seq<Rec>, x: nat, nm: string)
    requires |recs| == |recs2| == BS && forall y: nat | x <= y < BS :: recs2[y] == recs[y]
    ensures FindFrom(recs2, x, nm) == FindFrom(recs, x, nm)
    decreases BS - x
  {
    if RecFits(recs, x) {
      SuffixFind(recs, recs2, x + recs[x].recLen, nm);
    }
  }

  lemma {:induction false} InsertFind(recs: seq<Rec>, recs2: seq<Rec>, from: nat, pos: nat, r: Rec, nm: string)
    requires Inserted(recs, recs2, pos, r) && Tiles(recs, from) && OnChain(recs, from, pos) && r.ino != 0
    requires RecCnt(recs, from, ByName(r.name)) == 0
    ensures SameTarget(FindFrom(recs2, from, nm), if nm == r.name then r else FindFrom(recs, from, nm))
    decreases BS - from
  {
    if from == pos {
      var min, next := MinRec(|recs[pos].name|), pos + recs[pos].recLen;
      SuffixFind(recs, recs2, next, nm);
      assert RecFits(recs2, pos) && RecFits(recs2, pos + min);
      assert FindFrom(recs2, pos + min, nm) == if nm == r.name then r else FindFrom(recs2, next, nm);
    } else {
      ChainBefore(recs, from, pos);
      InsertFind(recs, recs2, from + recs[from].recLen, pos, r, nm);
    }
  }

  lemma {:induction false} MergeFind(recs: seq<Rec>, recs2: seq<Rec>, from: nat, prev: nat, pos: nat, nm: string)
    requires Merged(recs, recs2, prev, pos) && Tiles(recs, from) && OnChain(recs, from, prev)
    requires nm != recs[pos].name
    ensures SameTarget(FindFrom(recs2, from, nm), FindFrom(recs, from, nm))
    decreases BS - from
  {
    if from == prev {
      var next := pos + recs[pos].recLen;
      SuffixFind(recs, recs2, next, nm);
      assert Tiles(recs, pos);
      assert FindFrom(recs, pos, nm) == FindFrom(recs, next, nm);
    } else {
      ChainBefore(recs, from, prev);
      MergeFind(recs, recs2, from + recs[from].recLen, prev, pos, nm);
    }
  }

  lemma BlankFind(recs: seq<Rec>, recs2: seq<Rec>, nm: string)
    requires Blanked(recs, recs2) && Tiles(recs, 0) && nm != recs[0].name
    ensures SameTarget(FindFrom(recs2, 0, nm), FindFrom(recs, 0, nm))
  {
    SuffixFind(recs, recs2, recs[0].recLen, nm);
  }

  // ---- the directory as a map from names ----

  lemma {:induction false} LookupCounts(d: seq<Block>, i: Inode, nm: string, j: nat)
    requires j <= 12 && DirShape(d, i)
    ensures Lookup(d, i, nm, j) == Missing <==> DirCnt(d, i, ByName(nm)) == DirCnt(d, i, ByName(nm), j)
    ensures DirCnt(d, i, ByName(nm)) >= DirCnt(d, i, ByName(nm), j)
    decreases 12 - j
  {
    if j < 12 {
      LookupCounts(d, i, nm, j + 1);
      if i.block[j] != 0 {
        FindCounts(d[i.block[j]].recs, 0, nm);
      } else {
        NoMore(d, i, nm, j, 12);
      }
    }
  }

  lemma {:induction false} NoMore(d: seq<Block>, i: Inode, nm: string, j: nat, n: nat)
    requires j <= n <= 12 && DirShape(d, i) && (j < 12 ==> i.block[j] == 0)
    ensures DirCnt(d, i, ByName(nm), n) == DirCnt(d, i, ByName(nm), j)
  {
    if j < n {
      NoMore(d, i, nm, j, n - 1);
    }
  }

  /** The name is absent exactly when no record answers to it. */
  lemma MissingMeansNone(d: seq<Block>, i: Inode, nm: string)
    requires DirShape(d, i)
    ensures Lookup(d, i, nm) == Missing <==> DirCnt(d, i, ByName(nm)) == 0
  {
    LookupCounts(d, i, nm, 0);
  }

  /** If every block but the x-th finds the same and the x-th finds the same too, so does the directory. */
  lemma {:induction false} LookupSame(d: seq<Block>, d2: seq<Block>, i: Inode, nm: string, b: nat, j: nat)
    requires j <= 12 && 0 < b < |d| && SameBut(d, d2, {b})
    requires SameTarget(FindFrom(d2[b].recs, 0, nm), FindFrom(d[b].recs, 0, nm))
    ensures Lookup(d2, i, nm, j) == Lookup(d, i, nm, j)
    decreases 12 - j
  {
    if j < 12 {
      LookupSame(d, d2, i, nm, b, j + 1);
    }
  }

  lemma {:induction false} LookupHit(d: seq<Block>, i: Inode, nm: string, x: nat, r: Rec, j: nat)
    requires j <= x < 12 && DirShape(d, i) && i.block[x] != 0
    requires SameTarget(FindFrom(d[i.block[x]].recs, 0, nm), r) && r.ino != 0
    requires forall y | j <= y < x :: i.block[y] != 0 && FindFrom(d[i.block[y]].recs, 0, nm).ino == 0
    ensures Lookup(d, i, nm, j) == Entry(r.ino, r.ftype)
    decreases 12 - j
  {
    if j < x {
      LookupHit(d, i, nm, x, r, j + 1);
    }
  }
}
