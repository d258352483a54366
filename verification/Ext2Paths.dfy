/** The volume as a user of paths sees it, and what each operation does to that view. */
module Ext2Paths {
  import opened Ext2Layout
  import opened Ext2State
  import opened Ext2Dir
  import opened Ext2Entries
  import opened Ext2Ops
  import opened Ext2FileOps
  import opened Ext2Free

  /** What stands at a path. */
  datatype Sight = Nothing | Directory | File(bytes: seq<Byte>) | Special(inode: Inode)

  ghost function SightOf(d: seq<Block>, i: Inode): Sight {
    if IsDir(i) then Directory else if IsReg(i) then File(FileBytes(d, i)) else Special(i)
  }

  ghost function See(fs: Fs, ino: nat): Sight {
    if 1 <= ino <= |fs.inodes| then SightOf(fs.blk, fs.inodes[ino - 1]) else Nothing
  }

  ghost function Seen(fs: Fs, path: seq<string>): Sight { See(fs, PathTo(fs, 2, path)) }

  // ---- walking ----

  /** A path from an inode in use leads to an inode in use or nowhere. */
  lemma {:induction false} PathInUse(fs: Fs, x: nat, q: seq<string>)
    requires Inv(fs) && 1 <= x <= |fs.inodes| && Counted(fs, 0, x - 1)
    ensures PathTo(fs, x, q) != 0 ==> 1 <= PathTo(fs, x, q) <= |fs.inodes| && Counted(fs, 0, PathTo(fs, x, q) - 1)
    decreases |q|
  {
    hide InvX, Counted, Find;
    if q != [] {
      match Find(fs, x, q[0])
      case Missing =>
      case Entry(y, _) =>
        EntryInUse(fs, NO_DEBT, x - 1, q[0]);
        PathInUse(fs, y, q[1..]);
    }
  }

  lemma {:induction false} PathAppend(fs: Fs, x: nat, q: seq<string>, name: string)
    requires PathTo(fs, x, q) != 0
    ensures PathTo(fs, x, q + [name]) ==
      match Find(fs, PathTo(fs, x, q), name) case Missing => 0 case Entry(y, _) => y
    decreases |q|
  {
    if q == [] {
      assert (q + [name])[1..] == [];
    } else {
      assert (q + [name])[0] == q[0] && (q + [name])[1..] == q[1..] + [name];
      match Find(fs, x, q[0])
      case Missing =>
      case Entry(y, _) => PathAppend(fs, y, q[1..], name);
    }
  }

  lemma SameSight(fs0: Fs, fs: Fs, x: nat)
    requires 1 <= x <= |fs0.inodes| == |fs.inodes| && SameReading(fs0, fs, x - 1)
    ensures See(fs, x) == See(fs0, x)
    ensures forall nm: string :: Find(fs, x, nm) == Find(fs0, x, nm)
  {
    hide FileBytes, Lookup, FileType;
  }

  // ---- creation ----

  /** One step of a walk: only at the new name does it lead anywhere new. */
  lemma CreatedStep(fs0: Fs, fs: Fs, parent: seq<string>, name: string, ino: nat, ftype: nat, x: nat, nm: string)
    requires Created(fs0, fs, parent, name, ino, ftype)
    requires 1 <= x <= |fs0.inodes| && Counted(fs0, 0, x - 1)
    ensures x == PathTo(fs0, 2, parent) && nm == name ==>
      Find(fs0, x, nm) == Missing && Find(fs, x, nm) == Entry(ino, ftype)
    ensures !(x == PathTo(fs0, 2, parent) && nm == name) ==> Find(fs, x, nm) == Find(fs0, x, nm)
    ensures See(fs, x) == See(fs0, x)
  {
    hide InvX, Counted, Lookup, FileType, FileBytes, PathTo;
    var p := PathTo(fs0, 2, parent);
    if x != p {
      assert SameReading(fs0, fs, x - 1);
      SameSight(fs0, fs, x);
    }
  }

  /** Whatever a path led to, it still leads to and looks as it did. */
  lemma {:induction false} CreatedKeeps(fs0: Fs, fs: Fs, parent: seq<string>, name: string, ino: nat, ftype: nat,
                                        x: nat, q: seq<string>)
    requires Created(fs0, fs, parent, name, ino, ftype)
    requires 1 <= x <= |fs0.inodes| && Counted(fs0, 0, x - 1) && PathTo(fs0, x, q) != 0
    ensures PathTo(fs, x, q) == PathTo(fs0, x, q)
    ensures See(fs, PathTo(fs, x, q)) == See(fs0, PathTo(fs0, x, q))
    decreases |q|
  {
    hide Created, InvX, Counted, Find, See;
    assert Inv(fs0) by { CreatedInv(fs0, fs, parent, name, ino, ftype); }
    if q == [] {
      CreatedStep(fs0, fs, parent, name, ino, ftype, x, name);
    } else {
      CreatedStep(fs0, fs, parent, name, ino, ftype, x, q[0]);
      EntryInUse(fs0, NO_DEBT, x - 1, q[0]);
      CreatedKeeps(fs0, fs, parent, name, ino, ftype, Find(fs0, x, q[0]).ino, q[1..]);
    }
  }

  lemma CreatedInv(fs0: Fs, fs: Fs, parent: seq<string>, name: string, ino: nat, ftype: nat)
    requires Created(fs0, fs, parent, name, ino, ftype)
    ensures Inv(fs0) && Inv(fs) && 1 <= ino <= |fs0.inodes| == |fs.inodes|
    ensures Shape(fs0) && !Counted(fs0, 0, ino - 1) && DirIno(fs0, PathTo(fs0, 2, parent))
  {}

  /** A walk through a volume with a new file, link or node ends where it ended before, or at the new inode. */
  lemma {:induction false} CreatedWalk(fs0: Fs, fs: Fs, parent: seq<string>, name: string, ino: nat, ftype: nat,
                                       x: nat, q: seq<string>)
    requires Created(fs0, fs, parent, name, ino, ftype) && ino <= |fs.inodes| && !IsDir(fs.inodes[ino - 1])
    requires 1 <= x <= |fs0.inodes| && Counted(fs0, 0, x - 1)
    ensures PathTo(fs, x, q) == PathTo(fs0, x, q) || (PathTo(fs0, x, q) == 0 && PathTo(fs, x, q) == ino)
    decreases |q|
  {
    hide Created, InvX, Counted, See, FileType, Geo.Valid, Shape, Geo.IsMeta, Lookup;
    assert Inv(fs0) by { CreatedInv(fs0, fs, parent, name, ino, ftype); }
    if q != [] {
      CreatedStep(fs0, fs, parent, name, ino, ftype, x, q[0]);
      EntryInUse(fs0, NO_DEBT, x - 1, q[0]);
      if x == PathTo(fs0, 2, parent) && q[0] == name {
        if q[1..] != [] { assert Find(fs, ino, q[1..][0]) == Missing; }
      } else if Find(fs0, x, q[0]).Entry? {
        CreatedWalk(fs0, fs, parent, name, ino, ftype, Find(fs0, x, q[0]).ino, q[1..]);
      }
    }
  }

  /** Creating a file, link or node: its path shows it, every path that does not lead to it shows what it did. */
  lemma CreatedSeen(fs0: Fs, fs: Fs, parent: seq<string>, name: string, ino: nat, ftype: nat)
    requires Created(fs0, fs, parent, name, ino, ftype) && ino <= |fs.inodes| && !IsDir(fs.inodes[ino - 1])
    ensures PathTo(fs0, 2, parent + [name]) == 0 && PathTo(fs, 2, parent + [name]) == ino
    ensures forall q: seq<string> ::
      Seen(fs, q) == if PathTo(fs, 2, q) == ino then See(fs, ino) else Seen(fs0, q)
  {
    hide Shape;
    var p := PathTo(fs0, 2, parent);
    hide Created, InvX, Counted, See, FileType, Find;
    CreatedInv(fs0, fs, parent, name, ino, ftype);
    RootInUse(fs0);
    PathInUse(fs0, 2, parent);
    CreatedKeeps(fs0, fs, parent, name, ino, ftype, 2, parent);
    CreatedStep(fs0, fs, parent, name, ino, ftype, p, name);
    PathAppend(fs0, 2, parent, name);
    PathAppend(fs, 2, parent, name);
    forall q: seq<string>
      ensures Seen(fs, q) == if PathTo(fs, 2, q) == ino then See(fs, ino) else Seen(fs0, q)
    {
      CreatedWalk(fs0, fs, parent, name, ino, ftype, 2, q);
      if PathTo(fs0, 2, q) != 0 { CreatedKeeps(fs0, fs, parent, name, ino, ftype, 2, q); }
      else { SeeZero(fs); SeeZero(fs0); }
    }
  }

  /** The walk of q from x takes name out of directory p. */
  ghost predicate Takes(fs: Fs, x: nat, q: seq<string>, p: nat, name: string)
    decreases |q|
  {
    q != [] &&
    ((x == p && q[0] == name) || (Find(fs, x, q[0]).Entry? && Takes(fs, Find(fs, x, q[0]).ino, q[1..], p, name)))
  }

  /** Where the walk of q from x ends once name in directory p leads to a new directory ino, told by the old volume:
      from the new directory only itself and p can be reached. */
  ghost function Through(fs0: Fs, p: nat, name: string, ino: nat, x: nat, q: seq<string>): nat
    decreases |q|
  {
    if q == [] then x
    else if x == ino then
      if q[0] == "." then Through(fs0, p, name, ino, ino, q[1..])
      else if q[0] == ".." then Through(fs0, p, name, ino, p, q[1..])
      else 0
    else if x == p && q[0] == name then Through(fs0, p, name, ino, ino, q[1..])
    else match Find(fs0, x, q[0])
      case Missing => 0
      case Entry(y, _) => Through(fs0, p, name, ino, y, q[1..])
  }

  /** Walks through a volume with a new directory. */
  lemma {:induction false} DirWalk(fs0: Fs, fs: Fs, parent: seq<string>, name: string, ino: nat, x: nat, q: seq<string>)
    requires Created(fs0, fs, parent, name, ino, 2) && OnlyDots(fs, ino, PathTo(fs0, 2, parent))
    requires x == ino || (1 <= x <= |fs0.inodes| && Counted(fs0, 0, x - 1))
    ensures PathTo(fs, x, q) == Through(fs0, PathTo(fs0, 2, parent), name, ino, x, q)
    ensures var y := PathTo(fs, x, q); y == 0 || y == ino || (1 <= y <= |fs0.inodes| && Counted(fs0, 0, y - 1))
    decreases |q|
  {
    hide Created, InvX, Counted, Find, Shape;
    var p := PathTo(fs0, 2, parent);
    CreatedInv(fs0, fs, parent, name, ino, 2);
    RootInUse(fs0);
    PathInUse(fs0, 2, parent);
    assert p != 0 by { ZeroIsNoDir(fs0); }
    if q != [] {
      if x == ino {
        if q[0] == "." { DirWalk(fs0, fs, parent, name, ino, ino, q[1..]); }
        else if q[0] == ".." { DirWalk(fs0, fs, parent, name, ino, p, q[1..]); }
      } else {
        CreatedStep(fs0, fs, parent, name, ino, 2, x, q[0]);
        EntryInUse(fs0, NO_DEBT, x - 1, q[0]);
        if x == p && q[0] == name {
          DirWalk(fs0, fs, parent, name, ino, ino, q[1..]);
        } else if Find(fs0, x, q[0]).Entry? {
          DirWalk(fs0, fs, parent, name, ino, Find(fs0, x, q[0]).ino, q[1..]);
        }
      }
    }
  }

  lemma ZeroIsNoDir(fs: Fs)
    ensures !DirIno(fs, 0)
  {}

  /** A walk that does not take the new name ends where it ended. */
  lemma {:induction false} NotThrough(fs0: Fs, p: nat, name: string, ino: nat, x: nat, q: seq<string>)
    requires Inv(fs0) && 1 <= x <= |fs0.inodes| && Counted(fs0, 0, x - 1) && ino > 0 && !Counted(fs0, 0, ino - 1)
    requires !Takes(fs0, x, q, p, name)
    ensures Through(fs0, p, name, ino, x, q) == PathTo(fs0, x, q)
    decreases |q|
  {
    hide InvX, Counted, Find;
    if q != [] {
      EntryInUse(fs0, NO_DEBT, x - 1, q[0]);
      if Find(fs0, x, q[0]).Entry? { NotThrough(fs0, p, name, ino, Find(fs0, x, q[0]).ino, q[1..]); }
    }
  }

  /** After mkdir every path ends where Through says, and shows the new directory or what it showed. */
  ghost predicate DirAt(fs0: Fs, fs: Fs, parent: seq<string>, name: string) {
    var p, ino := PathTo(fs0, 2, parent), PathTo(fs, 2, parent + [name]);
    && p != 0 && PathTo(fs0, 2, parent + [name]) == 0 && ino != 0
    && (forall q: seq<string> ::
          && PathTo(fs, 2, q) == Through(fs0, p, name, ino, 2, q)
          && Seen(fs, q) == if PathTo(fs, 2, q) == ino then Directory else See(fs0, PathTo(fs, 2, q)))
    && (forall q: seq<string> | !Takes(fs0, 2, q, p, name) ::
          PathTo(fs, 2, q) == PathTo(fs0, 2, q) && Seen(fs, q) == Seen(fs0, q))
  }

  lemma DirSeen(fs0: Fs, fs: Fs, parent: seq<string>, name: string, ino: nat)
    requires Created(fs0, fs, parent, name, ino, 2) && OnlyDots(fs, ino, PathTo(fs0, 2, parent))
    requires ino <= |fs.inodes| && IsDir(fs.inodes[ino - 1])
    ensures DirAt(fs0, fs, parent, name)
  {
    hide Created, InvX, Counted, Find, Shape, FileType, OnlyDots;
    var p := PathTo(fs0, 2, parent);
    CreatedInv(fs0, fs, parent, name, ino, 2);
    RootInUse(fs0);
    PathInUse(fs0, 2, parent);
    assert p != 0 by { ZeroIsNoDir(fs0); }
    CreatedKeeps(fs0, fs, parent, name, ino, 2, 2, parent);
    CreatedStep(fs0, fs, parent, name, ino, 2, p, name);
    PathAppend(fs0, 2, parent, name);
    PathAppend(fs, 2, parent, name);
    SeeZero(fs);
    SeeZero(fs0);
    forall q: seq<string>
      ensures PathTo(fs, 2, q) == Through(fs0, p, name, ino, 2, q)
      ensures Seen(fs, q) == if PathTo(fs, 2, q) == ino then Directory else See(fs0, PathTo(fs, 2, q))
      ensures !Takes(fs0, 2, q, p, name) ==> PathTo(fs, 2, q) == PathTo(fs0, 2, q) && Seen(fs, q) == Seen(fs0, q)
    {
      DirWalk(fs0, fs, parent, name, ino, 2, q);
      var y := PathTo(fs, 2, q);
      if y != 0 && y != ino { CreatedStep(fs0, fs, parent, name, ino, 2, y, name); }
      if !Takes(fs0, 2, q, p, name) {
        NotThrough(fs0, p, name, ino, 2, q);
        PathInUse(fs0, 2, q);
      }
    }
  }

  lemma SeeZero(fs: Fs)
    ensures See(fs, 0) == Nothing
  {}

  // ---- rewriting and truncating ----

  /** Only the contents of regular file ino changed. */
  ghost predicate OneFileChanged(fs0: Fs, fs: Fs, ino: nat) {
    && Inv(fs0) && FileIno(fs0, ino) && |fs.inodes| == |fs0.inodes| && IsReg(fs.inodes[ino - 1])
    && OthersRead(fs0, 0, fs, ino - 1)
  }

  lemma {:induction false} ChangedWalk(fs0: Fs, fs: Fs, ino: nat, x: nat, q: seq<string>)
    requires OneFileChanged(fs0, fs, ino) && 1 <= x <= |fs0.inodes| && Counted(fs0, 0, x - 1)
    ensures PathTo(fs, x, q) == PathTo(fs0, x, q)
    ensures PathTo(fs0, x, q) != ino ==> See(fs, PathTo(fs0, x, q)) == See(fs0, PathTo(fs0, x, q))
    decreases |q|
  {
    hide InvX, Counted, FileType, Lookup, SightOf;
    if x == ino {
      RegNotDir(fs.inodes[ino - 1]);
      RegNotDir(fs0.inodes[ino - 1]);
    } else {
      assert SameReading(fs0, fs, x - 1);
      SameSight(fs0, fs, x);
      if q != [] {
        EntryInUse(fs0, NO_DEBT, x - 1, q[0]);
        if Find(fs0, x, q[0]).Entry? { ChangedWalk(fs0, fs, ino, Find(fs0, x, q[0]).ino, q[1..]); }
      }
    }
  }

  lemma RegNotDir(i: Inode)
    requires IsReg(i)
    ensures !IsDir(i)
  {}

  /** After a rewrite or truncation every path leads where it did, and only paths to that file show a change. */
  lemma ChangedSeen(fs0: Fs, fs: Fs, ino: nat)
    requires OneFileChanged(fs0, fs, ino)
    ensures forall q: seq<string> :: PathTo(fs, 2, q) == PathTo(fs0, 2, q)
    ensures forall q: seq<string> ::
      Seen(fs, q) == if PathTo(fs0, 2, q) == ino then File(FileBytes(fs.blk, fs.inodes[ino - 1])) else Seen(fs0, q)
  {
    hide InvX, Counted, FileType, FileBytes, OthersRead;
    RootInUse(fs0);
    RegNotDir(fs.inodes[ino - 1]);
    forall q: seq<string>
      ensures PathTo(fs, 2, q) == PathTo(fs0, 2, q)
      ensures Seen(fs, q) == if PathTo(fs0, 2, q) == ino then File(FileBytes(fs.blk, fs.inodes[ino - 1])) else Seen(fs0, q)
    {
      ChangedWalk(fs0, fs, ino, 2, q);
    }
  }

  // ---- unlinking ----

  lemma UnlinkedStep(fs0: Fs, fs: Fs, parent: seq<string>, name: string, x: nat, nm: string)
    requires Unlinked(fs0, fs, parent, name) && 1 <= x <= |fs0.inodes| && Counted(fs0, 0, x - 1)
    requires x != Find(fs0, PathTo(fs0, 2, parent), name).ino
    ensures Find(fs, x, nm) == if x == PathTo(fs0, 2, parent) && nm == name then Missing else Find(fs0, x, nm)
    ensures See(fs, x) == See(fs0, x)
  {
    hide InvX, Counted, Lookup, FileType, FileBytes, PathTo;
    if x != PathTo(fs0, 2, parent) {
      assert SameReading(fs0, fs, x - 1);
      SameSight(fs0, fs, x);
    }
  }

  lemma UnlinkedFacts(fs0: Fs, fs: Fs, parent: seq<string>, name: string)
    requires Unlinked(fs0, fs, parent, name)
    ensures Inv(fs0) && Inv(fs) && Find(fs0, PathTo(fs0, 2, parent), name).Entry? && |fs.inodes| == |fs0.inodes|
    ensures var ino := Find(fs0, PathTo(fs0, 2, parent), name).ino;
      FileIno(fs0, ino) && !Counted(fs, 0, ino - 1)
    ensures forall k: nat :: Counted(fs, 0, k) ==> Counted(fs0, 0, k)
  {
    hide InvX, Lookup, FileType, FileBytes, PathTo, Unlisted;
  }

  /** Walks that do not take the removed name, nor end at the removed file, end where they ended. */
  lemma {:induction false} UnlinkedWalk(fs0: Fs, fs: Fs, parent: seq<string>, name: string, x: nat, q: seq<string>)
    requires Unlinked(fs0, fs, parent, name) && 1 <= x <= |fs0.inodes| && Counted(fs0, 0, x - 1)
    requires Counted(fs, 0, x - 1)
    ensures var p := PathTo(fs0, 2, parent);
      PathTo(fs, x, q) == if Takes(fs0, x, q, p, name) then 0 else PathTo(fs0, x, q)
    ensures PathTo(fs, x, q) != 0 ==> See(fs, PathTo(fs, x, q)) == See(fs0, PathTo(fs, x, q))
    decreases |q|
  {
    hide InvX, Counted, See, FileType, Unlinked, Find;
    var p := PathTo(fs0, 2, parent);
    UnlinkedFacts(fs0, fs, parent, name);
    if q == [] {
      UnlinkedStep(fs0, fs, parent, name, x, name);
    } else {
      UnlinkedStep(fs0, fs, parent, name, x, q[0]);
      EntryInUse(fs, NO_DEBT, x - 1, q[0]);
      if x == p && q[0] == name {
      } else if Find(fs, x, q[0]).Entry? {
        UnlinkedWalk(fs0, fs, parent, name, Find(fs, x, q[0]).ino, q[1..]);
      }
    }
  }

  /** After an unlink: paths through the removed name lead nowhere, all others show what they did. */
  lemma UnlinkedSeen(fs0: Fs, fs: Fs, parent: seq<string>, name: string)
    requires Unlinked(fs0, fs, parent, name)
    ensures var p := PathTo(fs0, 2, parent);
      forall q: seq<string> :: Seen(fs, q) == if Takes(fs0, 2, q, p, name) then Nothing else Seen(fs0, q)
  {
    hide InvX, Counted, See, FileType, Unlinked, Find;
    var p := PathTo(fs0, 2, parent);
    UnlinkedFacts(fs0, fs, parent, name);
    RootInUse(fs0);
    RootInUse(fs);
    SeeZero(fs);
    SeeZero(fs0);
    forall q: seq<string> ensures Seen(fs, q) == if Takes(fs0, 2, q, p, name) then Nothing else Seen(fs0, q) {
      UnlinkedWalk(fs0, fs, parent, name, 2, q);
    }
  }
}
