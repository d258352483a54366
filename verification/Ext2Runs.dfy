/** Whole runs: from formatting through any successful operations, the checker finds no fault. */
module Ext2Runs {
  import opened Ext2Layout
  import opened Ext2State
  import opened Ext2Steps
  import opened Ext2Volume
  import opened Ext2Engine
  import opened Ext2FileMap
  import opened Ext2Files
  import opened Ext2Free
  import opened Ext2Dir
  import opened Ext2Entries
  import opened Ext2Ops
  import opened Ext2FileOps
  import Ext2Mkdir
  import Ext2Mkfs
  import opened Ext2Paths
  import FsckSpec
  import FsckAgrees
  import Fsck

  datatype Op =
    | MakeDir(parent: seq<string>, name: string, mode: nat)
    | MakeFile(parent: seq<string>, name: string, data: seq<Byte>)
    | MakeLink(parent: seq<string>, name: string, target: seq<Byte>)
    | MakeNode(parent: seq<string>, name: string, nodeMode: nat, major: nat, minor: nat)
    | Rewrite(path: seq<string>, data: seq<Byte>)
    | Empty(path: seq<string>)
    | Remove(parent: seq<string>, name: string, now: nat)

  /** The new path shows s; every path that does not lead there shows what it did. */
  ghost predicate NewAt(fs0: Fs, fs: Fs, path: seq<string>, s: Sight) {
    && PathTo(fs0, 2, path) == 0 && PathTo(fs, 2, path) != 0 && Seen(fs, path) == s
    && forall q: seq<string> ::
         Seen(fs, q) == if PathTo(fs, 2, q) == PathTo(fs, 2, path) then s else Seen(fs0, q)
  }

  /** The file at path holds data; all paths lead where they did and show no other change. */
  ghost predicate NewContents(fs0: Fs, fs: Fs, path: seq<string>, data: seq<Byte>) {
    && Seen(fs0, path).File? && Seen(fs, path) == File(data)
    && (forall q: seq<string> :: PathTo(fs, 2, q) == PathTo(fs0, 2, q))
    && forall q: seq<string> ::
         Seen(fs, q) == if PathTo(fs0, 2, q) == PathTo(fs0, 2, path) then File(data) else Seen(fs0, q)
  }

  /** What a user of paths is promised of each operation. */
  ghost predicate Effect(fs0: Fs, op: Op, fs: Fs) {
    match op
    case MakeDir(parent, name, _) =>
      && Seen(fs, parent + [name]) == Directory && (fs == fs0 || DirAt(fs0, fs, parent, name))
      && forall q: seq<string> | PathTo(fs0, 2, q) != 0 :: PathTo(fs, 2, q) == PathTo(fs0, 2, q) && Seen(fs, q) == Seen(fs0, q)
    case MakeFile(parent, name, data) => NewAt(fs0, fs, parent + [name], File(data))
    case MakeLink(parent, name, target) =>
      exists i: Inode :: NewAt(fs0, fs, parent + [name], Special(i)) && IsLink(i) && LinksTo(i, target)
    case MakeNode(parent, name, mode, major, minor) =>
      exists i: Inode :: NewAt(fs0, fs, parent + [name], Special(i)) && i.mode == mode && DeviceOf(i) == (major, minor)
    case Rewrite(path, data) => NewContents(fs0, fs, path, data)
    case Empty(path) => NewContents(fs0, fs, path, [])
    case Remove(parent, name, _) =>
      && Seen(fs0, parent + [name]).File? && Seen(fs, parent + [name]) == Nothing
      && forall q: seq<string> ::
           Seen(fs, q) == if Takes(fs0, 2, q, PathTo(fs0, 2, parent), name) then Nothing else Seen(fs0, q)
  }

  // ---- from what the operations ensure to what users see ----

  lemma FileShown(fs0: Fs, fs: Fs, parent: seq<string>, name: string, ino: nat, ftype: nat, s: Sight)
    requires Created(fs0, fs, parent, name, ino, ftype) && ino <= |fs.inodes| && !IsDir(fs.inodes[ino - 1])
    requires See(fs, ino) == s
    ensures NewAt(fs0, fs, parent + [name], s)
  {
    hide Created, See;
    assert ino > 0 by { CreatedInv(fs0, fs, parent, name, ino, ftype); }
    CreatedSeen(fs0, fs, parent, name, ino, ftype);
  }

  lemma HoldingShown(fs0: Fs, fs: Fs, ino: nat, data: seq<Byte>)
    requires Holding(fs0, fs, ino, data)
    ensures See(fs, ino) == File(data) && ino <= |fs.inodes| && !IsDir(fs.inodes[ino - 1])
  {
    RegNotDir(fs.inodes[ino - 1]);
  }

  lemma DirShown(fs0: Fs, fs: Fs, parent: seq<string>, name: string, ino: nat)
    requires Created(fs0, fs, parent, name, ino, 2) && ino <= |fs.inodes| && IsDir(fs.inodes[ino - 1])
    ensures Seen(fs, parent + [name]) == Directory
    ensures forall q: seq<string> | PathTo(fs0, 2, q) != 0 ::
      PathTo(fs, 2, q) == PathTo(fs0, 2, q) && Seen(fs, q) == Seen(fs0, q)
  {
    hide Created, InvX, Counted, Find, FileType;
    CreatedInv(fs0, fs, parent, name, ino, 2);
    RootInUse(fs0);
    var p := PathTo(fs0, 2, parent);
    PathInUse(fs0, 2, parent);
    CreatedKeeps(fs0, fs, parent, name, ino, 2, 2, parent);
    CreatedStep(fs0, fs, parent, name, ino, 2, p, name);
    PathAppend(fs, 2, parent, name);
    forall q: seq<string> | PathTo(fs0, 2, q) != 0
      ensures PathTo(fs, 2, q) == PathTo(fs0, 2, q) && Seen(fs, q) == Seen(fs0, q)
    {
      CreatedKeeps(fs0, fs, parent, name, ino, 2, 2, q);
    }
  }

  /** mkdir on an existing directory: already as asked. */
  lemma DirWasThere(fs: Fs, parent: seq<string>, name: string, x: nat)
    requires Find(fs, PathTo(fs, 2, parent), name).Entry? && Find(fs, PathTo(fs, 2, parent), name).ino == x
    requires 1 <= x <= |fs.inodes| && IsDir(fs.inodes[x - 1])
    ensures Seen(fs, parent + [name]) == Directory
  {
    hide Find, FileType;
    assert PathTo(fs, 2, parent) != 0 by { FindNeedsDir(fs, 0, name); }
    PathAppend(fs, 2, parent, name);
  }

  lemma FindNeedsDir(fs: Fs, x: nat, name: string)
    ensures Find(fs, x, name).Entry? ==> DirIno(fs, x)
  {}

  lemma ContentsShown(fs0: Fs, fs: Fs, path: seq<string>, data: seq<Byte>)
    requires var ino := PathTo(fs0, 2, path);
      OneFileChanged(fs0, fs, ino) && FileBytes(fs.blk, fs.inodes[ino - 1]) == data
    ensures NewContents(fs0, fs, path, data)
  {
    hide InvX, Counted, FileType, FileBytes, OthersRead;
    var ino := PathTo(fs0, 2, path);
    RegNotDir(fs0.inodes[ino - 1]);
    ChangedSeen(fs0, fs, ino);
  }

  lemma RemovedShown(fs0: Fs, fs: Fs, parent: seq<string>, name: string, now: nat)
    requires Unlinked(fs0, fs, parent, name)
    ensures Effect(fs0, Remove(parent, name, now), fs)
  {
    hide Unlinked, InvX, Counted, FileType, FileBytes, Find;
    var p := PathTo(fs0, 2, parent);
    UnlinkedFacts(fs0, fs, parent, name);
    UnlinkedSeen(fs0, fs, parent, name);
    assert p != 0 by { FindNeedsDir(fs0, 0, name); }
    PathAppend(fs0, 2, parent, name);
    RegNotDir(fs0.inodes[Find(fs0, p, name).ino - 1]);
    TakesLast(fs0, 2, parent, name);
  }

  lemma {:induction false} TakesLast(fs: Fs, x: nat, q: seq<string>, name: string)
    requires PathTo(fs, x, q) != 0
    ensures Takes(fs, x, q + [name], PathTo(fs, x, q), name)
    decreases |q|
  {
    hide Find;
    if q != [] {
      assert (q + [name])[0] == q[0] && (q + [name])[1..] == q[1..] + [name];
      TakesLast(fs, Find(fs, x, q[0]).ino, q[1..], name);
    }
  }

  // ---- performing ----

  /** What callers of rewrite, truncate and unlink look at first: a file or a directory, or nothing. */
  method PlainTarget(v: Volume, path: seq<string>) returns (ok: bool)
    requires v.OnDisk() && Inv(v.fs)
    modifies v`sb, v`gd
    ensures ok ==> FileOrDir(v.fs, PathTo(v.fs, 2, path))
    ensures v.fs.geo.groups <= MAX_GROUPS && FileOrDir(v.fs, PathTo(v.fs, 2, path)) ==> ok
  {
    hide InvX, Counted, Rep, Loaded, FileType;
    ok := v.LoadMeta();
    if !ok { return false; }
    InodesCount(v.fs);
    var ino;
    ok, ino := Resolve(v, path);
    if !ok { return true; }
    var i;
    ok, i := v.ReadInode(ino);
    return ok && (IsReg(i) || IsDir(i));
  }

  lemma InodesCount(fs: Fs)
    requires Inv(fs)
    ensures |fs.inodes| == fs.geo.Inodes()
  {}

  /** Nothing stands in the way of the operation: names, kinds and room are as it needs them. */
  ghost predicate Possible(fs: Fs, op: Op) {
    match op
    case MakeDir(parent, name, _) => Room(fs, parent, name, 1) || Ext2Mkdir.DirThere(fs, parent, name)
    case MakeFile(parent, name, data) => Room(fs, parent, name, BlocksFor(data)) && FitsInFile(data)
    case MakeLink(parent, name, target) => Room(fs, parent, name, 0) && 1 <= |target| <= 60
    case MakeNode(parent, name, mode, major, minor) =>
      Room(fs, parent, name, 0) && FileType(mode) in {2, 6} && major <= 0xFFF && minor <= 0xFFFFF
    case Rewrite(path, data) =>
      && fs.geo.groups <= MAX_GROUPS && FitsInFile(data) && FileIno(fs, PathTo(fs, 2, path))
      && BlocksFor(data) <= fs.totB + |TreeBlocks(fs, fs.inodes[PathTo(fs, 2, path) - 1])|
    case Empty(path) => fs.geo.groups <= MAX_GROUPS && FileIno(fs, PathTo(fs, 2, path))
    case Remove(parent, name, _) => CanUnlink(fs, parent, name)
  }

  lemma FileIsPlain(fs: Fs, ino: nat)
    requires FileIno(fs, ino)
    ensures FileOrDir(fs, ino)
  {}

  lemma EntryAtPath(fs: Fs, parent: seq<string>, name: string)
    ensures var p := PathTo(fs, 2, parent);
      Find(fs, p, name).Entry? ==> PathTo(fs, 2, parent + [name]) == Find(fs, p, name).ino
  {
    hide Find;
    FindNeedsDir(fs, 0, name);
    if PathTo(fs, 2, parent) != 0 { PathAppend(fs, 2, parent, name); }
  }

  method PerformCreation(v: Volume, op: Op) returns (ok: bool)
    requires v.OnDisk() && Inv(v.fs) && (op.MakeNode? ==> op.nodeMode < 0x1_0000)
    requires op.MakeFile? || op.MakeLink? || op.MakeNode?
    modifies v
    ensures ok ==> v.OnDisk() && Inv(v.fs) && v.fs.geo == old(v.fs).geo && Effect(old(v.fs), op, v.fs)
    ensures ok <==> Possible(old(v.fs), op)
  {
    hide InvX, Rep, Created, Holding, Counted, FileType, PathTo, Find, NewAt, OthersRead, FileBytes, LinksTo,
      DeviceOf, FitsInFile, BlocksFor, Room;
    ghost var fs0 := v.fs;
    ghost var ino, ftype;
    match op
    case MakeFile(parent, name, data) =>
      ok, ino := Create(v, parent, name, data);
      if ok {
        CreatedInv(fs0, v.fs, parent, name, ino, 1);
        CreatedGeo(fs0, v.fs, parent, name, ino, 1);
        HoldingShown(fs0, v.fs, ino, data);
        FileShown(fs0, v.fs, parent, name, ino, 1, File(data));
      }
    case MakeLink(parent, name, target) =>
      ok, ino := Symlink(v, parent, name, target);
      if ok {
        CreatedInv(fs0, v.fs, parent, name, ino, 7);
        CreatedGeo(fs0, v.fs, parent, name, ino, 7);
        SpecialShown(v.fs, ino);
        FileShown(fs0, v.fs, parent, name, ino, 7, Special(v.fs.inodes[ino - 1]));
      }
    case MakeNode(parent, name, mode, major, minor) =>
      ok, ino := Mknod(v, parent, name, mode, major, minor);
      if ok {
        ftype := if FileType(mode) == 2 then 3 else 4;
        CreatedInv(fs0, v.fs, parent, name, ino, ftype);
        CreatedGeo(fs0, v.fs, parent, name, ino, ftype);
        SpecialShown(v.fs, ino);
        FileShown(fs0, v.fs, parent, name, ino, ftype, Special(v.fs.inodes[ino - 1]));
      }
  }

  method PerformChange(v: Volume, op: Op) returns (ok: bool)
    requires v.OnDisk() && Inv(v.fs) && (op.Rewrite? || op.Empty?)
    modifies v
    ensures ok ==> v.OnDisk() && Inv(v.fs) && v.fs.geo == old(v.fs).geo && Effect(old(v.fs), op, v.fs)
    ensures ok <==> Possible(old(v.fs), op)
  {
    hide InvX, Rep, Counted, FileType, PathTo, NewContents, OthersRead, Exchanged, BlocksRight, FileBytes, FileIno,
      FitsInFile, BlocksFor, TreeBlocks, FileOrDir;
    ghost var fs0 := v.fs;
    ghost var ino := PathTo(fs0, 2, op.path);
    if FileIno(fs0, ino) { FileIsPlain(fs0, ino); }
    ok := PlainTarget(v, op.path);
    if !ok { return; }
    match op
    case Rewrite(path, data) =>
      ok := WriteExisting(v, path, data);
      if ok { ChangedEffect(fs0, v.fs, path, data, ino); }
    case Empty(path) =>
      ok := Truncate(v, path);
      if ok {
        ShapeOf(v.fs, NO_DEBT);
        EmptiedIsEmpty(fs0, v.fs, ino);
        ChangedEffect(fs0, v.fs, path, [], ino);
      }
  }

  /** One operation, called as the VFS adapter calls it. */
  method Perform(v: Volume, op: Op) returns (ok: bool)
    requires v.OnDisk() && Inv(v.fs) && (op.MakeNode? ==> op.nodeMode < 0x1_0000)
    modifies v
    ensures ok ==> v.OnDisk() && Inv(v.fs) && v.fs.geo == old(v.fs).geo && Effect(old(v.fs), op, v.fs)
    ensures ok <==> Possible(old(v.fs), op)
  {
    hide InvX, Rep, Created, Counted, FileType, PathTo, Find, Unlinked, NewAt, NewContents, OthersRead, FileIno,
      FitsInFile, BlocksFor, TreeBlocks, Room;
    ghost var fs0 := v.fs;
    ghost var ino;
    match op
    case MakeDir(parent, name, mode) =>
      ok, ino := Ext2Mkdir.Mkdir(v, parent, name, mode);
      if ok { DirEffect(fs0, v.fs, parent, name, mode, ino); }
    case Remove(parent, name, now) =>
      EntryAtPath(fs0, parent, name);
      if CanUnlink(fs0, parent, name) { FileIsPlain(fs0, PathTo(fs0, 2, parent + [name])); }
      ok := PlainTarget(v, parent + [name]);
      if ok { ok := Unlink(v, parent, name, now); }
      if ok {
        UnlinkedGeo(fs0, v.fs, parent, name);
        RemovedShown(fs0, v.fs, parent, name, now);
      }
    case MakeFile(_, _, _) => ok := PerformCreation(v, op);
    case MakeLink(_, _, _) => ok := PerformCreation(v, op);
    case MakeNode(_, _, _, _, _) => ok := PerformCreation(v, op);
    case Rewrite(_, _) => ok := PerformChange(v, op);
    case Empty(_) => ok := PerformChange(v, op);
  }

  lemma SpecialShown(fs: Fs, ino: nat)
    requires 1 <= ino <= |fs.inodes|
    requires IsLink(fs.inodes[ino - 1]) || FileType(fs.inodes[ino - 1].mode) in {2, 6}
    ensures See(fs, ino) == Special(fs.inodes[ino - 1]) && !IsDir(fs.inodes[ino - 1])
  {}

  lemma UnlinkedGeo(fs0: Fs, fs: Fs, parent: seq<string>, name: string)
    requires Unlinked(fs0, fs, parent, name)
    ensures Inv(fs) && fs.geo == fs0.geo
  {}

  lemma CreatedGeo(fs0: Fs, fs: Fs, parent: seq<string>, name: string, ino: nat, ftype: nat)
    requires Created(fs0, fs, parent, name, ino, ftype)
    ensures fs.geo == fs0.geo
  {}

  lemma EmptiedIsEmpty(fs0: Fs, fs: Fs, ino: nat)
    requires FileIno(fs0, ino) && Shape(fs) && fs.geo == fs0.geo && fs.ibits == fs0.ibits
    requires fs.inodes == fs0.inodes[ino - 1 := Emptied(fs0.inodes[ino - 1])]
    ensures FileIno(fs, ino) && FileBytes(fs.blk, fs.inodes[ino - 1]) == []
  {
    StillFile(fs0, fs, ino);
  }

  lemma ChangedEffect(fs0: Fs, fs: Fs, path: seq<string>, data: seq<Byte>, ino: nat)
    requires FileIno(fs0, ino) && FileIno(fs, ino) && Inv(fs0) && OthersRead(fs0, 0, fs, ino - 1)
    requires FileBytes(fs.blk, fs.inodes[ino - 1]) == data && ino == PathTo(fs0, 2, path)
    ensures NewContents(fs0, fs, path, data)
  {
    hide InvX, FileBytes, SameReading, PathTo, NewContents, FileType, Counted;
    assert OneFileChanged(fs0, fs, ino);
    hide OneFileChanged;
    ContentsShown(fs0, fs, path, data);
  }

  lemma DirEffect(fs0: Fs, fs: Fs, parent: seq<string>, name: string, mode: nat, ino: nat)
    requires Inv(fs) && 1 <= ino <= |fs.inodes| && IsDir(fs.inodes[ino - 1])
    requires (fs == fs0 && exists t :: Find(fs, PathTo(fs, 2, parent), name) == Entry(ino, t))
      || (Created(fs0, fs, parent, name, ino, 2) && OnlyDots(fs, ino, PathTo(fs0, 2, parent)))
    ensures Effect(fs0, MakeDir(parent, name, mode), fs) && fs.geo == fs0.geo
  {
    hide InvX, Created, Find, FileType, DirAt, OnlyDots;
    if Created(fs0, fs, parent, name, ino, 2) && OnlyDots(fs, ino, PathTo(fs0, 2, parent)) {
      DirSeen(fs0, fs, parent, name, ino);
      CreatedGeo(fs0, fs, parent, name, ino, 2);
      DirShown(fs0, fs, parent, name, ino);
    } else {
      DirWasThere(fs, parent, name, ino);
    }
  }

  /** The states along a run: each operation is possible in its state and has its effect on the next. */
  ghost predicate Chain(states: seq<Fs>, ops: seq<Op>) {
    |states| == |ops| + 1 && forall i | 0 <= i < |ops| :: Possible(states[i], ops[i]) && Effect(states[i], ops[i], states[i + 1])
  }

  lemma ChainMore(states: seq<Fs>, ops: seq<Op>, i: nat, fs: Fs)
    requires i < |ops| && Chain(states, ops[..i]) && Possible(states[i], ops[i]) && Effect(states[i], ops[i], fs)
    ensures Chain(states + [fs], ops[..i + 1])
  {
    hide Effect, Possible;
    assert ops[..i + 1] == ops[..i] + [ops[i]];
  }

  lemma ChainStart(fs: Fs, ops: seq<Op>)
    ensures Chain([fs], ops[..0])
  {}

  /** Format, perform, check: the checker finds no fault, every operation had its effect,
      and only an operation that was not possible in its state can have stopped the run. */
  method Run(v: Volume, bytes: nat, ops: seq<Op>) returns (ok: bool, rc: nat, ghost states: seq<Fs>)
    requires bytes / BS <= |v.dev| && forall op | op in ops :: op.MakeNode? ==> op.nodeMode < 0x1_0000
    modifies v
    ensures ok ==> Ext2Mkfs.CanFormat(bytes)
    ensures ok ==> rc == 0 && v.OnDisk() && Inv(v.fs)
    ensures ok ==> Chain(states, ops) && v.fs == states[|ops|]
    ensures !ok && Ext2Mkfs.CanFormat(bytes) ==>
      && 0 < |states| <= |ops| && Chain(states, ops[..|states| - 1])
      && !Possible(states[|states| - 1], ops[|states| - 1])
  {
    hide InvX, Rep, FsckSpec.Clean, Effect, Fsck.Loadable, Ext2Mkfs.CanFormat, Ext2Mkfs.Fresh, Possible, Chain;
    rc, states := 2, [];
    var made := Ext2Mkfs.Mkfs(v, bytes);
    if made != 0 { return false, rc, states; }
    states := [v.fs];
    ChainStart(v.fs, ops);
    var i := 0;
    while i < |ops|
      invariant 0 <= i <= |ops| && v.OnDisk() && Inv(v.fs)
      invariant |states| == i + 1 && states[i] == v.fs && Chain(states, ops[..i])
    {
      assert ops[i] in ops;
      var done := Perform(v, ops[i]);
      if !done { return false, rc, states; }
      ChainMore(states, ops, i, v.fs);
      states := states + [v.fs];
      i := i + 1;
    }
    assert ops[..i] == ops;
    FsckAgrees.Agree(v.dev, v.fs);
    rc := Fsck.Phase1(v.dev);
    ok := true;
  }

  // ---- writing and truncating ----

  /** Bitmaps determine all free counts. */
  lemma CountsFollow(fs: Fs, fs2: Fs)
    requires Shape(fs) && Shape(fs2) && BlockCounts(fs) && BlockCounts(fs2) && fs.geo == fs2.geo && fs.bits == fs2.bits
    ensures fs.freeB == fs2.freeB && fs.totB == fs2.totB
  {
    hide Clear, Geo.GroupBlocks;
    forall g | 0 <= g < fs.geo.groups ensures fs.freeB[g] == fs2.freeB[g] {}
    assert fs.freeB == fs2.freeB;
  }

  /** Truncating a file that was written from empty gives back every bitmap bit, group count and total. */
  lemma TruncateUndoesWrite(fs1: Fs, fs2: Fs, fs3: Fs, ino: nat)
    requires Inv(fs1) && Inv(fs2) && Inv(fs3) && FileIno(fs1, ino) && FileIno(fs2, ino)
    requires fs1.inodes[ino - 1].block == NO_BLOCKS
    requires Exchanged(fs1, fs2, TreeBlocks(fs1, fs1.inodes[ino - 1]), TreeBlocks(fs2, fs2.inodes[ino - 1]))
    requires BitsSet(fs2, fs3.(inodes := fs2.inodes), TreeBlocks(fs2, fs2.inodes[ino - 1]), false)
    ensures fs3.bits == fs1.bits && fs3.freeB == fs1.freeB && fs3.totB == fs1.totB
  {
    hide FileType, TreeBlocks, Ownership, LinksMatch, Inodes, InodeCounts, Counted, BlockCounts, Geo.Valid;
    NoTreeBlocks(fs1, fs1.inodes[ino - 1]);
    var t := TreeBlocks(fs2, fs2.inodes[ino - 1]);
    forall g | 0 <= g < fs1.geo.groups ensures fs3.bits[g] == fs1.bits[g] {
      forall l | 0 <= l < BPG ensures fs3.bits[g][l] == fs1.bits[g][l] {
        if g * BPG + l in t {
          assert !Alloc(fs1, g * BPG + l);
          SamePlace(fs1, fs2, g, l);
        }
      }
    }
    CountsFollow(fs1, fs3);
  }

  lemma SamePlace(fs1: Fs, fs2: Fs, g: nat, l: nat)
    requires Shape(fs1) && Shape(fs2) && fs1.geo == fs2.geo && g < fs1.geo.groups && l < BPG && !Alloc(fs1, g * BPG + l)
    ensures g * BPG + l < fs1.geo.blocks ==> !fs1.bits[g][l]
  {}

  /** Writing a file that was empty and truncating it again: the free space is exactly as before. */
  method WriteThenTruncate(v: Volume, path: seq<string>, data: seq<Byte>) returns (ok: bool)
    requires v.OnDisk() && Inv(v.fs) && FileIno(v.fs, PathTo(v.fs, 2, path))
    requires v.fs.inodes[PathTo(v.fs, 2, path) - 1].block == NO_BLOCKS
    modifies v
    ensures ok <==> old(v.fs).geo.groups <= MAX_GROUPS && FitsInFile(data) && BlocksFor(data) <= old(v.fs).totB
    ensures ok ==> v.OnDisk() && Inv(v.fs)
    ensures ok ==> v.fs.bits == old(v.fs).bits && v.fs.freeB == old(v.fs).freeB && v.fs.totB == old(v.fs).totB
  {
    hide InvX, Rep, Counted, FileType, PathTo, OthersRead, Exchanged, BlocksRight, FileBytes, FitsInFile, BlocksFor,
      TreeBlocks, FileOrDir, BitsSet, FileIno, Shape;
    ghost var fs1, ino := v.fs, PathTo(v.fs, 2, path);
    EmptyFile(fs1, ino);
    ok := WriteExisting(v, path, data);
    if !ok { return; }
    ghost var fs2 := v.fs;
    StillThere(fs1, fs2, path, ino);
    ok := Truncate(v, path);
    TruncateUndoesWrite(fs1, fs2, v.fs, ino);
  }

  lemma EmptyFile(fs: Fs, ino: nat)
    requires Inv(fs) && FileIno(fs, ino)
    ensures FileOrDir(fs, ino) && Shape(fs) && 1 <= ino <= |fs.inodes|
    ensures fs.inodes[ino - 1].block == NO_BLOCKS ==> TreeBlocks(fs, fs.inodes[ino - 1]) == {}
  {
    hide TreeBlocks;
    if fs.inodes[ino - 1].block == NO_BLOCKS { NoTreeBlocks(fs, fs.inodes[ino - 1]); }
  }

  lemma StillThere(fs0: Fs, fs: Fs, path: seq<string>, ino: nat)
    requires FileIno(fs0, ino) && FileIno(fs, ino) && Inv(fs0) && Inv(fs) && OthersRead(fs0, 0, fs, ino - 1) && ino == PathTo(fs0, 2, path)
    ensures PathTo(fs, 2, path) == ino && FileOrDir(fs, ino)
  {
    hide InvX, FileBytes, SameReading, PathTo, NewContents, FileType, Counted;
    FileIsPlain(fs, ino);
    assert OneFileChanged(fs0, fs, ino);
    hide OneFileChanged;
    ContentsShown(fs0, fs, path, FileBytes(fs.blk, fs.inodes[ino - 1]));
    Leads(fs0, fs, path, FileBytes(fs.blk, fs.inodes[ino - 1]));
  }

  lemma Leads(fs0: Fs, fs: Fs, path: seq<string>, data: seq<Byte>)
    requires NewContents(fs0, fs, path, data)
    ensures PathTo(fs, 2, path) == PathTo(fs0, 2, path)
  {}
}
