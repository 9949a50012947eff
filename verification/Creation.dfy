/** create: a new file, directory or device under a name in a directory. */
module Creation {
  import opened Bytes
  import opened Bitmap
  import opened BlockMap
  import opened Dirents
  import opened Directory
  import opened Holes
  import opened Params
  import opened Sets
  import DI = DiskInodes
  import FS = FileSystem

  /** Opened is the file that has the name already; NoSpace is where balloc's -1 would be taken for a block number. */
  datatype Outcome = Created(inum: nat) | Opened(inum: nat) | Refused | Panicked | OutOfSpace

  lemma DotNames()
    ensures Cut(Dot()) != Cut(DotDot())
  {
    assert Cut(Dot()) == Dot() && Cut(DotDot()) == DotDot();
  }

  /** The two entries of an empty directory. */
  function Dots(inum: nat, dp: nat): seq<Dirent>
  {
    [Dirent(inum % 0x1_0000, Cut(Dot())), Dirent(dp % 0x1_0000, Cut(DotDot()))]
  }

  lemma DotsAre(inum: nat, dp: nat)
    ensures Dots(inum, dp) == [Dirent(inum % 0x1_0000, [46]), Dirent(dp % 0x1_0000, [46, 46])]
  {
    assert Cut(Dot()) == [46] && Cut(DotDot()) == [46, 46];
  }

  /** Files other than i and j are what they were. */
  ghost predicate KeptBut(b: Image, n: seq<Inode>, b': Image, n': seq<Inode>, i: nat, j: nat)
  {
    && |n'| == |n|
    && forall k :: 0 <= k < |n| && k != i && k != j ==> n'[k] == n[k] && Contents(b', n', k) == Contents(b, n, k)
  }

  /** The stored inodes other than i and j are the same. */
  ghost predicate StoredBut(sb: FS.Super, b: Image, b': Image, i: nat, j: nat)
  {
    && |b'| == |b| && sb.inodestart + FS.InodeBlocks(sb.ninodes) <= |b|
    && forall k :: 0 <= k < sb.ninodes && k != i && k != j ==> FS.DInode(sb, b', k) == FS.DInode(sb, b, k)
  }

  /** What steps that change files i and j have done so far. */
  ghost predicate Since(sb: FS.Super, reserved: set<nat>, s: FS.Snap, t: FS.Snap, i: nat, j: nat)
  {
    && FS.Carried(reserved, s.blocks, s.owner, t.blocks, t.owner, t.logged) && s.logged <= t.logged
    && (FS.Home(sb, reserved, s.logged) ==> FS.Home(sb, reserved, t.logged))
    && FS.DenseKept(s.blocks, s.inode, t.blocks, t.inode) && KeptBut(s.blocks, s.inode, t.blocks, t.inode, i, j)
    && StoredBut(sb, s.blocks, t.blocks, i, j)
  }

  lemma SinceOne(sb: FS.Super, reserved: set<nat>, s: FS.Snap, t: FS.Snap, i: nat, j: nat, k: nat)
    requires FS.Carried(reserved, s.blocks, s.owner, t.blocks, t.owner, t.logged) && s.logged <= t.logged
    requires FS.Home(sb, reserved, s.logged) ==> FS.Home(sb, reserved, t.logged)
    requires FS.DenseKept(s.blocks, s.inode, t.blocks, t.inode)
           && FS.OthersKept(s.blocks, s.inode, t.blocks, t.inode, k)
    requires FS.StoredOthers(sb, s.blocks, t.blocks, k) && (k == i || k == j)
    ensures Since(sb, reserved, s, t, i, j)
  {
    hide Dense, Contents, FS.Carried, FS.Home, FS.DInode;
  }

  lemma SinceTwice(sb: FS.Super, reserved: set<nat>, s: FS.Snap, t: FS.Snap, u: FS.Snap, i: nat, j: nat)
    requires Since(sb, reserved, s, t, i, j) && Since(sb, reserved, t, u, i, j)
    ensures Since(sb, reserved, s, u, i, j)
  {
    hide Dense, Contents, FS.Home, FS.DInode;
  }

  /** The look for the name, which fills the holes of the directory. */
  lemma SinceRead(sb: FS.Super, reserved: set<nat>, s: FS.Snap, t: FS.Snap, i: nat, dp: nat)
    requires FS.Consistent(sb, reserved, s.blocks, s.inode, s.owner)
           && FS.Consistent(sb, reserved, t.blocks, t.inode, t.owner)
    requires dp < |s.inode| == |t.inode| == sb.ninodes && FS.HolesFilled(sb, s, t, dp, 0, s.inode[dp].size)
    requires OnlyRead(s.blocks, s.inode, t.blocks, t.inode, dp)
    ensures Since(sb, reserved, s, t, i, dp) && Dense(t.blocks, t.inode, dp)
    ensures List(t.blocks, t.inode, dp) == List(s.blocks, s.inode, dp)
    ensures t.inode[dp] == s.inode[dp].(addrs := t.inode[dp].addrs)
    ensures forall j :: 0 <= j < |s.inode| && j != dp ==> t.inode[j] == s.inode[j]
    ensures t.inode[dp] == s.inode[dp] <==> FS.OwnThere(s.inode, dp, 0, s.inode[dp].size)
    ensures FS.DInode(sb, t.blocks, dp) == FS.DInode(sb, s.blocks, dp) && FS.AddrsKept(s.inode[dp], t.inode[dp])
  {
    hide FS.Consistent, FS.HolesFilled, Dense, FS.Carried, FS.Home, FS.DInode, FS.OwnThere, FS.DenseKept;
    FilledKeeps(sb, reserved, s, t, dp);
    if FS.Home(sb, reserved, s.logged) {
      FilledHome(sb, reserved, s, t, dp, 0, s.inode[dp].size);
    }
    OnlyReadContents(s.blocks, s.inode, t.blocks, t.inode, dp);
    assert FS.OthersKept(s.blocks, s.inode, t.blocks, t.inode, dp);
    hide OnlyRead, Contents;
    SinceOne(sb, reserved, s, t, i, dp, dp);
    hide FS.StoredOthers;
    assert t.inode != s.inode ==> t.inode[dp] != s.inode[dp];
  }

  /** What ialloc needs to know after it. */
  lemma ReadKept(sb: FS.Super, reserved: set<nat>, s: FS.Snap, t: FS.Snap, dp: nat)
    requires FS.Consistent(sb, reserved, s.blocks, s.inode, s.owner)
           && FS.Consistent(sb, reserved, t.blocks, t.inode, t.owner)
    requires dp < |s.inode| == |t.inode| == sb.ninodes && FS.HolesFilled(sb, s, t, dp, 0, s.inode[dp].size)
    requires OnlyRead(s.blocks, s.inode, t.blocks, t.inode, dp)
    requires FS.StoredKinds(sb, s.blocks, s.inode) && FS.FreeBlank(s.inode) && s.inode[dp].kind != 0
    ensures FS.StoredKinds(sb, t.blocks, t.inode) && FS.FreeBlank(t.inode)
  {
    SinceRead(sb, reserved, s, t, dp, dp);
    hide FS.Consistent, FS.HolesFilled, OnlyRead, FS.DInode, FS.Carried, FS.Home, FS.DenseKept, KeptBut, Dense, List,
         FS.OwnThere, FS.AddrsKept;
  }

  /** The entries of an inode that nothing was done to. */
  lemma SameList(b: Image, n: seq<Inode>, b': Image, n': seq<Inode>, i: nat, k: nat)
    requires FS.OthersKept(b, n, b', n', i) && k < |n| && k != i
    ensures |n'| == |n| && List(b', n', k) == List(b, n, k) && n'[k] == n[k]
  {
  }

  /** dirlink(ip, ".", ip->inum) and dirlink(ip, "..", dp->inum). false is where the disk is full. */
  method MakeDots(fs: FS.FileSystem, inum: nat, dp: nat) returns (ok: bool)
    requires fs.Valid() && inum < |fs.inode| <= 0x1_0000
    requires 0 < inum && fs.inode[inum].kind == T_DIR && fs.inode[inum].size == 0
    modifies fs
    ensures fs.Valid() && (!ok ==> FS.Full(fs.sb, fs.blocks))
    ensures ok ==> inum < |fs.inode| && List(fs.blocks, fs.inode, inum) == Dots(inum, dp)
    ensures ok ==> fs.inode[inum] == old(fs.inode)[inum].(size := fs.inode[inum].size, addrs := fs.inode[inum].addrs)
    ensures ok ==> FS.OthersKept(old(fs.blocks), old(fs.inode), fs.blocks, fs.inode, inum)
    ensures ok ==> LinkKept(fs.sb, fs.reserved, old(fs.Now()), fs.Now(), inum)
    ensures ok ==> WrittenThrough(fs.sb, fs.blocks, fs.inode, inum)
    ensures ok && fs.sb.size <= BPB ==> fs.logged <= old(fs.logged) + FS.WriteSet(fs.sb, fs.blocks, fs.inode, inum, 0)
  {
    hide FS.Consistent, FS.Synced, FS.Full, FS.Home, FS.Carried, FS.DenseKept, FS.OthersKept, List, Insert, First, Cut,
         ByteAt, FS.AddrsKept, FS.WriteSet, FreeBlock, Dense, LinkKept, FS.DInode, AllHoles, FirstFree, FS.OwnThere;
    ghost var s0 := fs.Now();
    EmptyList(fs.blocks, fs.inode, inum);
    OneEntry(inum, dp);
    var r := Dirlink(fs, inum, Dot(), inum);
    if r != Linked {
      return false;
    }
    ghost var s1 := fs.Now();
    KeptParts(fs.sb, fs.reserved, s0, s1, inum);
    r := Dirlink(fs, inum, DotDot(), dp);
    if r != Linked {
      return false;
    }
    KeptTwice(fs.sb, fs.reserved, s0, s1, fs.Now(), inum);
    SameSet(fs.sb, s1.blocks, s1.inode, fs.blocks, fs.inode, inum);
    return true;
  }

  lemma KeptParts(sb: FS.Super, reserved: set<nat>, s: FS.Snap, t: FS.Snap, i: nat)
    requires i < |s.inode| && LinkKept(sb, reserved, s, t, i)
    ensures |t.inode| == |s.inode| && Dense(t.blocks, t.inode, i)
  {
  }

  lemma KeptTwice(sb: FS.Super, reserved: set<nat>, s: FS.Snap, t: FS.Snap, u: FS.Snap, i: nat)
    requires i < |s.inode| == |t.inode| == |u.inode| && LinkKept(sb, reserved, s, t, i)
           && LinkKept(sb, reserved, t, u, i)
    requires FS.OthersKept(s.blocks, s.inode, t.blocks, t.inode, i)
    requires FS.OthersKept(t.blocks, t.inode, u.blocks, u.inode, i)
    ensures LinkKept(sb, reserved, s, u, i) && FS.OthersKept(s.blocks, s.inode, u.blocks, u.inode, i)
    ensures FS.AddrsKept(t.inode[i], u.inode[i])
  {
    hide Contents, Dense, FS.Home, FS.DInode;
  }

  /** Inode i is stored as it is in memory. */
  ghost predicate WrittenThrough(sb: FS.Super, b: Image, n: seq<Inode>, i: nat)
  {
    i < |n| == sb.ninodes && sb.inodestart + FS.InodeBlocks(sb.ninodes) <= |b| && FS.DInode(sb, b, i) == n[i]
  }

  lemma Room(sb: FS.Super, reserved: set<nat>, b: Image, n: seq<Inode>, o: map<nat, Slot>)
    requires FS.Consistent(sb, reserved, b, n, o)
    ensures sb.inodestart + FS.InodeBlocks(sb.ninodes) <= |b|
  {
  }

  /** Both entries go to the same block. */
  lemma SameSet(sb: FS.Super, b: Image, n: seq<Inode>, b': Image, n': seq<Inode>, i: nat)
    requires i < |n| == |n'| && Dense(b, n, i) && List(b, n, i) != [] && FS.AddrsKept(n[i], n'[i])
    ensures FS.WriteSet(sb, b, n, i, 0) == FS.WriteSet(sb, b', n', i, 0)
  {
    assert n[i].size > 0;
    FS.DirectAddr(b, n, i, 0);
    FS.DirectAddr(b', n', i, 0);
    hide AddrOf;
    assert AddrOf(b, n, i, SlotOf(0)) != 0;
  }

  lemma EmptyList(b: Image, n: seq<Inode>, i: nat)
    requires i < |n| && n[i].size == 0
    ensures List(b, n, i) == [] && Dense(b, n, i)
  {
  }

  lemma OneEntry(inum: nat, dp: nat)
    ensures Insert([], Dirent(inum % 0x1_0000, Cut(Dot()))) == [Dirent(inum % 0x1_0000, Cut(Dot()))]
    ensures First([], Cut(Dot()), 0) == 0 == FirstFree([], 0) && FreeBlock([]) == 0
    ensures 0 < inum < 0x1_0000 ==>
      FirstFree([Dirent(inum % 0x1_0000, Cut(Dot()))], 0) == 1 && FreeBlock([Dirent(inum % 0x1_0000, Cut(Dot()))]) == 0
    ensures First([Dirent(inum % 0x1_0000, Cut(Dot()))], Cut(DotDot()), 0) == 1
    ensures 0 < inum < 0x1_0000 ==>
      Insert([Dirent(inum % 0x1_0000, Cut(Dot()))], Dirent(dp % 0x1_0000, Cut(DotDot()))) == Dots(inum, dp)
  {
    DotNames();
    hide Cut;
    FirstStep([Dirent(inum % 0x1_0000, Cut(Dot()))], Cut(DotDot()), 0);
  }

  /** create between ialloc and the last dirlink: the new inode's fields, and for a directory its entries and the link
      of its parent. false is where the disk is full. */
  method FillIn(fs: FS.FileSystem, dp: nat, inum: nat, kind: Half, major: Half, minor: Half) returns (ok: bool)
    requires fs.Valid() && 0 < inum < |fs.inode| <= 0x1_0000 && dp < |fs.inode| && dp != inum
    requires fs.inode[inum] == Blank(kind, 0) && Contents(fs.blocks, fs.inode, inum) == []
    modifies fs
    ensures fs.Valid() && |fs.inode| == |old(fs.inode)| && (!ok ==> FS.Full(fs.sb, fs.blocks))
    ensures ok ==> NewInode(fs.blocks, fs.inode, inum, dp, kind, major, minor)
    ensures ok ==>
        fs.inode[dp] == WithLink(old(fs.inode)[dp], kind)
          && List(fs.blocks, fs.inode, dp) == old(List(fs.blocks, fs.inode, dp))
    ensures ok ==> Since(fs.sb, fs.reserved, old(fs.Now()), fs.Now(), inum, dp)
    ensures ok ==> WrittenThrough(fs.sb, fs.blocks, fs.inode, inum)
    ensures ok ==> ParentStored(fs.sb, old(fs.Now()), fs.Now(), dp, kind)
    ensures ok && fs.sb.size <= BPB ==>
      fs.logged <= old(fs.logged) + FS.WriteSet(fs.sb, fs.blocks, fs.inode, inum, 0) + {fs.sb.inodestart + dp / DI.IPB}
  {
    hide FS.Consistent, FS.Full, FS.Home, FS.Carried, FS.DenseKept, FS.OthersKept, List, ByteAt, Contents, Since, Cut,
         FS.WriteSet, FS.DInode, FS.StoredOthers, LinkKept, ParentStored;
    ghost var s0 := fs.Now();
    fs.SetInode(inum, fs.inode[inum].(major := major, minor := minor, nlink := 1));
    ghost var s1 := fs.Now();
    Room(fs.sb, fs.reserved, fs.blocks, fs.inode, fs.owner);
    InodeHome(fs, s0.logged, inum);
    SinceOne(fs.sb, fs.reserved, s0, s1, inum, dp, inum);
    SameList(s0.blocks, s0.inode, fs.blocks, fs.inode, inum, dp);
    ParentSame(fs.sb, s0, s1, inum, dp, kind);
    OwnBlock(fs.sb, fs.blocks, fs.inode, inum);
    ok := true;
    if kind == T_DIR {
      fs.SetInode(dp, WithLink(fs.inode[dp], kind));
      ghost var s2 := fs.Now();
      Room(fs.sb, fs.reserved, fs.blocks, fs.inode, fs.owner);
      InodeHome(fs, s1.logged, dp);
      SinceOne(fs.sb, fs.reserved, s1, s2, inum, dp, dp);
      SinceTwice(fs.sb, fs.reserved, s0, s1, s2, inum, dp);
      SameContents(s1.blocks, s1.inode, fs.blocks, fs.inode, dp, inum);
      ok := MakeDots(fs, inum, dp);
      if ok {
        DotsAre(inum, dp);
        SinceLink(fs.sb, fs.reserved, s2, fs.Now(), inum, dp, inum);
        SinceTwice(fs.sb, fs.reserved, s0, s2, fs.Now(), inum, dp);
        SameList(s2.blocks, s2.inode, fs.blocks, fs.inode, inum, dp);
        ParentLinked(fs.sb, fs.reserved, s0, s2, fs.Now(), inum, dp);
        OwnBlock(fs.sb, fs.blocks, fs.inode, inum);
      }
    }
  }

  lemma SinceLink(sb: FS.Super, reserved: set<nat>, s: FS.Snap, t: FS.Snap, i: nat, j: nat, k: nat)
    requires k < |s.inode| && LinkKept(sb, reserved, s, t, k) && (k == i || k == j)
    requires FS.OthersKept(s.blocks, s.inode, t.blocks, t.inode, k)
    ensures Since(sb, reserved, s, t, i, j)
  {
    hide FS.Carried, FS.Home, FS.DenseKept, FS.OthersKept, Dense, FS.AddrsKept, FS.StoredOthers, Since;
    SinceOne(sb, reserved, s, t, i, j, k);
  }

  /** The parent of a new directory is written through; that of another file is stored as it was. */
  ghost predicate ParentStored(sb: FS.Super, s: FS.Snap, t: FS.Snap, dp: nat, kind: nat)
  {
    if kind == T_DIR then WrittenThrough(sb, t.blocks, t.inode, dp)
    else
      && dp < sb.ninodes && |t.blocks| == |s.blocks| && sb.inodestart + FS.InodeBlocks(sb.ninodes) <= |s.blocks|
      && FS.DInode(sb, t.blocks, dp) == FS.DInode(sb, s.blocks, dp)
  }

  lemma ParentSame(sb: FS.Super, s: FS.Snap, t: FS.Snap, i: nat, dp: nat, kind: nat)
    requires FS.StoredOthers(sb, s.blocks, t.blocks, i) && dp < sb.ninodes && dp != i
    ensures kind != T_DIR ==> ParentStored(sb, s, t, dp, kind)
  {
    hide FS.DInode;
  }

  lemma ParentLinked(sb: FS.Super, reserved: set<nat>, s: FS.Snap, t: FS.Snap, u: FS.Snap, i: nat, dp: nat)
    requires i < |t.inode| == |u.inode| == sb.ninodes && LinkKept(sb, reserved, t, u, i)
    requires dp < sb.ninodes && dp != i && sb.inodestart + FS.InodeBlocks(sb.ninodes) <= |t.blocks|
    requires u.inode[dp] == t.inode[dp] == FS.DInode(sb, t.blocks, dp)
    ensures ParentStored(sb, s, u, dp, T_DIR)
  {
    hide FS.DInode, FS.Carried, FS.Home, Dense;
  }

  lemma OwnBlock(sb: FS.Super, b: Image, n: seq<Inode>, i: nat)
    requires i < |n|
    ensures sb.inodestart + i / DI.IPB in FS.WriteSet(sb, b, n, i, 0)
  {
  }

  /** One link more for a new directory. */
  function WithLink(ip: Inode, kind: nat): Inode
  {
    ip.(nlink := if kind == T_DIR then (ip.nlink + 1) % 0x1_0000 else ip.nlink)
  }

  ghost predicate NewInode(b: Image, n: seq<Inode>, inum: nat, dp: nat, kind: Half, major: Half, minor: Half)
    requires inum < |n|
  {
    && n[inum].kind == kind && n[inum].major == major && n[inum].minor == minor && n[inum].nlink == 1
    && if kind == T_DIR
       then List(b, n, inum) == [Dirent(inum % 0x1_0000, [46]), Dirent(dp % 0x1_0000, [46, 46])]
       else Contents(b, n, inum) == []
  }

  lemma SameContents(b: Image, n: seq<Inode>, b': Image, n': seq<Inode>, i: nat, k: nat)
    requires i < |n| == |n'| && Contents(b', n', i) == Contents(b, n, i) && FS.OthersKept(b, n, b', n', i) && k < |n|
           && k != i
    ensures List(b', n', i) == List(b, n, i) && n'[k] == n[k]
  {
  }

  lemma InodeHome(fs: FS.FileSystem, l: set<nat>, i: nat)
    requires fs.Valid() && i < |fs.inode| && fs.logged == l + {fs.sb.inodestart + i / DI.IPB}
    ensures FS.Home(fs.sb, fs.reserved, l) ==> FS.Home(fs.sb, fs.reserved, fs.logged)
  {
    if FS.Home(fs.sb, fs.reserved, l) {
      FS.FileSystem.HomeInode(fs.sb, fs.reserved, fs.blocks, l, i);
    }
  }

  /** The entry that a name resolves to in directory dp. */
  ghost function Entry(b: Image, n: seq<Inode>, dp: nat, name: seq<Byte>): nat
    requires dp < |n|
  {
    First(List(b, n, dp), Cut(name), 0)
  }

  /** What a successful create has done: the first free inode is the new file, the name is bound to it, a new directory
      has its two entries and dp one link more, and all other files are what they were. */
  ghost predicate Made(b: Image, n: seq<Inode>, b': Image, n': seq<Inode>, dp: nat, name: seq<Byte>, kind: Half,
                       major: Half, minor: Half, inum: nat)
    requires dp < |n| == |n'|
  {
    && 1 <= inum < |n| && inum != dp && n[inum].kind == 0 && (forall j :: 1 <= j < inum ==> n[j].kind != 0)
    && NewInode(b', n', inum, dp, kind, major, minor)
    && List(b', n', dp) == Insert(List(b, n, dp), Dirent(inum % 0x1_0000, Cut(name)))
    && n'[dp] == n[dp].(nlink := n'[dp].nlink, size := n'[dp].size, addrs := n'[dp].addrs)
    && n'[dp].nlink == (if kind == T_DIR then (n[dp].nlink + 1) % 0x1_0000 else n[dp].nlink)
    && KeptBut(b, n, b', n', inum, dp)
  }

  lemma StaysDense(sb: FS.Super, reserved: set<nat>, s: FS.Snap, t: FS.Snap, i: nat, dp: nat)
    requires Since(sb, reserved, s, t, i, dp) && dp < |s.inode| && Dense(s.blocks, s.inode, dp)
    ensures |t.inode| == |s.inode| && Dense(t.blocks, t.inode, dp)
  {
    hide FS.Carried, FS.Home, KeptBut, StoredBut;
  }

  lemma StaysNew(b: Image, n: seq<Inode>, b': Image, n': seq<Inode>, inum: nat, dp: nat, kind: Half, major: Half,
                 minor: Half)
    requires inum < |n| && inum != dp && FS.OthersKept(b, n, b', n', dp) && NewInode(b, n, inum, dp, kind, major, minor)
    ensures |n'| == |n| && NewInode(b', n', inum, dp, kind, major, minor) && n'[inum] == n[inum]
  {
    hide Contents, Dots;
  }

  lemma StaysBlank(sb: FS.Super, reserved: set<nat>, s: FS.Snap, t: FS.Snap, i: nat, dp: nat)
    requires Since(sb, reserved, s, t, i, dp) && FS.FreeBlank(s.inode) && i < |s.inode| == |t.inode| && dp < |s.inode|
    requires t.inode[i].kind != 0 && t.inode[dp].kind != 0
    ensures FS.FreeBlank(t.inode) && KeptBut(s.blocks, s.inode, t.blocks, t.inode, i, dp)
  {
    hide Contents, FS.Carried, FS.Home, FS.DenseKept, StoredBut;
  }

  /** Inode i is stored as it was. */
  ghost predicate StoredStill(sb: FS.Super, b: Image, b': Image, i: nat)
  {
    && i < sb.ninodes && |b'| == |b| && sb.inodestart + FS.InodeBlocks(sb.ninodes) <= |b|
    && FS.DInode(sb, b', i) == FS.DInode(sb, b, i)
  }

  /** create after ialloc: the new inode is filled in, and its name entered in the directory. */
  method Enter(fs: FS.FileSystem, dp: nat, name: seq<Byte>, inum: nat, kind: Half, major: Half,
               minor: Half) returns (res: Outcome)
    requires fs.Valid() && 0 < inum < |fs.inode| <= 0x1_0000 && dp < |fs.inode| && dp != inum
    requires fs.inode[inum] == Blank(kind, 0) && Contents(fs.blocks, fs.inode, inum) == []
    requires Dense(fs.blocks, fs.inode, dp) && Entry(fs.blocks, fs.inode, dp, name) == |List(fs.blocks, fs.inode, dp)|
    modifies fs
    ensures fs.Valid() && |fs.inode| == |old(fs.inode)|
    ensures res == Created(inum) || (res.OutOfSpace? && FS.Full(fs.sb, fs.blocks)) || res.Panicked?
    ensures res.Panicked? ==>
      || old(fs.inode)[dp].kind != T_DIR || old(fs.inode)[dp].size % DESIZE != 0
      || NoRoom(old(fs.blocks), old(fs.inode), dp)
    ensures res.Created? ==>
      && NewInode(fs.blocks, fs.inode, inum, dp, kind, major, minor)
      && List(fs.blocks, fs.inode, dp) == Insert(old(List(fs.blocks, fs.inode, dp)), Dirent(inum % 0x1_0000, Cut(name)))
      && fs.inode[dp] == WithLink(old(fs.inode)[dp], kind).(size := fs.inode[dp].size, addrs := fs.inode[dp].addrs)
      && Since(fs.sb, fs.reserved, old(fs.Now()), fs.Now(), inum, dp)
    ensures res.Created? ==>
      && WrittenThrough(fs.sb, fs.blocks, fs.inode, inum) && Dense(fs.blocks, fs.inode, dp)
      && FS.AddrsKept(old(fs.inode)[dp], fs.inode[dp])
      && var es := old(List(fs.blocks, fs.inode, dp));
         WrittenThrough(fs.sb, fs.blocks, fs.inode, dp)
         == (kind == T_DIR || FirstFree(es, 0) == |es| || old(WrittenThrough(fs.sb, fs.blocks, fs.inode, dp)))
    ensures res.Created? && kind != T_DIR
            && old(FirstFree(List(fs.blocks, fs.inode, dp), 0) < |List(fs.blocks, fs.inode, dp)|) ==>
      StoredStill(fs.sb, old(fs.blocks), fs.blocks, dp)
    ensures res.Created? && fs.sb.size <= BPB ==>
      fs.logged <= old(fs.logged) + FS.WriteSet(fs.sb, fs.blocks, fs.inode, inum, 0) + {fs.sb.inodestart + dp / DI.IPB}
                 + FS.WriteSet(fs.sb, fs.blocks, fs.inode, dp, FreeBlock(old(List(fs.blocks, fs.inode, dp))))
  {
    hide FS.Consistent, FS.Synced, FS.Full, FS.Home, FS.Carried, FS.DenseKept, FS.OthersKept, List, Insert, First, Cut;
    hide ByteAt, FS.FreeBlank, Dense, KeptBut, Contents, FS.WriteSet, FreeBlock, Since, AllHoles, LinkKept, LinkStored;
    hide FS.DInode, FS.StoredOthers, StoredBut, FirstFree, WrittenThrough, FS.AddrsKept, NewInode, ParentStored;
    ghost var s0 := fs.Now();
    var ok := FillIn(fs, dp, inum, kind, major, minor);
    if !ok {
      return OutOfSpace;
    }
    ghost var s1 := fs.Now();
    StaysDense(fs.sb, fs.reserved, s0, s1, inum, dp);
    var linked := Dirlink(fs, dp, name, inum);
    if linked.LinkNoSpace? {
      return OutOfSpace;
    } else if !linked.Linked? {
      return Panicked;
    }
    SinceLink(fs.sb, fs.reserved, s1, fs.Now(), inum, dp, dp);
    SinceTwice(fs.sb, fs.reserved, s0, s1, fs.Now(), inum, dp);
    KeptParts(fs.sb, fs.reserved, s1, fs.Now(), dp);
    StaysNew(s1.blocks, s1.inode, fs.blocks, fs.inode, inum, dp, kind, major, minor);
    EnterStored(fs.sb, fs.reserved, s0, s1, fs.Now(), dp, inum, kind);
    NewSet(fs.sb, s1, fs.Now(), inum);
    return Created(inum);
  }

  lemma EnterStored(sb: FS.Super, reserved: set<nat>, s: FS.Snap, t: FS.Snap, u: FS.Snap, dp: nat, inum: nat, kind: nat)
    requires FS.Consistent(sb, reserved, s.blocks, s.inode, s.owner)
           && FS.Consistent(sb, reserved, u.blocks, u.inode, u.owner)
    requires |s.inode| == |t.inode| == |u.inode| == sb.ninodes && dp < |s.inode| && inum < |s.inode| && inum != dp
    requires ParentStored(sb, s, t, dp, kind) && t.inode[dp] == WithLink(s.inode[dp], kind)
    requires WrittenThrough(sb, t.blocks, t.inode, inum) && u.inode[inum] == t.inode[inum]
    requires Dense(t.blocks, t.inode, dp) && LinkKept(sb, reserved, t, u, dp)
    requires var es := List(t.blocks, t.inode, dp); LinkStored(sb, t, u, dp, FirstFree(es, 0) == |es|)
    ensures WrittenThrough(sb, u.blocks, u.inode, inum) && FS.AddrsKept(s.inode[dp], u.inode[dp])
    ensures var es := List(t.blocks, t.inode, dp);
      kind != T_DIR && FirstFree(es, 0) < |es| ==> StoredStill(sb, s.blocks, u.blocks, dp)
    ensures var es := List(t.blocks, t.inode, dp);
      WrittenThrough(sb, u.blocks, u.inode, dp)
      == (kind == T_DIR || FirstFree(es, 0) == |es| || WrittenThrough(sb, s.blocks, s.inode, dp))
  {
    hide FS.DInode, FirstFree, List, Dense, FS.OwnThere, FS.Carried, FS.Home, FS.DenseKept, FS.Marked, Owned;
    FS.DenseOwn(t.blocks, t.inode, dp, 0, t.inode[dp].size);
  }

  /** The first block of the new inode is where it was. */
  lemma NewSet(sb: FS.Super, s: FS.Snap, t: FS.Snap, i: nat)
    requires i < |s.inode| == |t.inode| && t.inode[i] == s.inode[i]
    ensures FS.WriteSet(sb, t.blocks, t.inode, i, 0) == FS.WriteSet(sb, s.blocks, s.inode, i, 0)
  {
  }

  lemma MadeNow(sb: FS.Super, reserved: set<nat>, s: FS.Snap, t: FS.Snap, dp: nat, name: seq<Byte>, kind: Half,
                major: Half, minor: Half, inum: nat)
    requires dp < |s.inode| == |t.inode| && 1 <= inum < |s.inode| && inum != dp && s.inode[inum].kind == 0
    requires forall j :: 1 <= j < inum ==> s.inode[j].kind != 0
    requires NewInode(t.blocks, t.inode, inum, dp, kind, major, minor)
    requires List(t.blocks, t.inode, dp) == Insert(List(s.blocks, s.inode, dp), Dirent(inum % 0x1_0000, Cut(name)))
    requires t.inode[dp] == WithLink(s.inode[dp], kind).(size := t.inode[dp].size, addrs := t.inode[dp].addrs)
    requires Since(sb, reserved, s, t, inum, dp)
    ensures Made(s.blocks, s.inode, t.blocks, t.inode, dp, name, kind, major, minor, inum)
  {
    hide List, Insert, Cut, FS.Carried, FS.Home, FS.DenseKept, KeptBut, StoredBut;
  }

  /** The new inode is written through, and its directory's is if it has changed at all since the lookup filled its
      holes. */
  lemma CreateStored(sb: FS.Super, reserved: set<nat>, s: FS.Snap, t: FS.Snap, u: FS.Snap, v: FS.Snap, dp: nat,
                     inum: nat, kind: nat)
    requires Since(sb, reserved, s, v, inum, dp) && inum != dp && FS.StoredKinds(sb, s.blocks, s.inode)
    requires |s.inode| == |t.inode| == |u.inode| == |v.inode| && dp < |s.inode| && inum < |s.inode|
    requires s.inode[dp].size % DESIZE == 0 && List(u.blocks, u.inode, dp) == List(s.blocks, s.inode, dp)
    requires Since(sb, reserved, s, t, inum, dp) && FS.DInode(sb, t.blocks, dp) == FS.DInode(sb, s.blocks, dp)
    requires t.inode[dp] == s.inode[dp] <==> FS.OwnThere(s.inode, dp, 0, s.inode[dp].size)
    requires FS.StoredOthers(sb, t.blocks, u.blocks, inum) && u.inode[dp] == t.inode[dp]
    requires WrittenThrough(sb, v.blocks, v.inode, inum)
    requires kind != T_DIR && FirstFree(List(u.blocks, u.inode, dp), 0) < |List(u.blocks, u.inode, dp)| ==>
        StoredStill(sb, u.blocks, v.blocks, dp)
    requires var es := List(u.blocks, u.inode, dp);
      WrittenThrough(sb, v.blocks, v.inode, dp)
      == (kind == T_DIR || FirstFree(es, 0) == |es| || WrittenThrough(sb, u.blocks, u.inode, dp))
    requires v.inode[dp].kind == s.inode[dp].kind
    ensures FS.StoredKinds(sb, v.blocks, v.inode)
    ensures FS.Synced(sb, s.blocks, s.inode) ==>
      (FS.Synced(sb, v.blocks, v.inode) <==> kind == T_DIR || FS.OwnThere(s.inode, dp, 0, s.inode[dp].size))
    ensures kind != T_DIR && FirstFree(List(u.blocks, u.inode, dp), 0) < |List(u.blocks, u.inode, dp)| ==>
        (FS.Synced(sb, s.blocks, s.inode) ==> FS.Synced(sb, v.blocks, s.inode[inum := v.inode[inum]]))
  {
    hide FS.DInode, FirstFree, List, FS.OwnThere, FS.Carried, FS.Home, FS.DenseKept, Contents;
    if !FS.OwnThere(s.inode, dp, 0, s.inode[dp].size) {
      HoleIsFree(s.blocks, s.inode, dp);
    }
    if FS.Synced(sb, s.blocks, s.inode) {
      assert WrittenThrough(sb, v.blocks, v.inode, dp) <==>
        kind == T_DIR || FS.OwnThere(s.inode, dp, 0, s.inode[dp].size);
    }
  }

  /** The bitmap, two inode blocks, the first block of a new directory, in its parent a block and the indirect one, and
      what filled the holes of that. */
  lemma CreateCounts(sb: FS.Super, reserved: set<nat>, s: FS.Snap, t: FS.Snap, v: FS.Snap, inum: nat, dp: nat, bn: nat)
    requires FS.Consistent(sb, reserved, s.blocks, s.inode, s.owner)
           && FS.Consistent(sb, reserved, t.blocks, t.inode, t.owner)
    requires |s.inode| == |t.inode| == |v.inode| == sb.ninodes && dp < |s.inode| && inum < |s.inode|
    requires FS.HolesFilled(sb, s, t, dp, 0, s.inode[dp].size) && sb.size <= BPB
    requires FS.AddrsKept(t.inode[dp], v.inode[dp])
    requires v.logged <= t.logged + {sb.inodestart + inum / DI.IPB} + FS.WriteSet(sb, v.blocks, v.inode, inum, 0)
                       + {sb.inodestart + dp / DI.IPB} + FS.WriteSet(sb, v.blocks, v.inode, dp, bn)
    ensures |v.logged| <= |s.logged| + 6 + AllHoles(s.blocks, s.inode, dp)
  {
    hide AddrOf, FS.HolesFilled, Fillings, HoleCount, Owned, FS.Layout, FS.Marked;
    FilledLogs(sb, s, t, dp, s.inode[dp].size);
    var k := FS.EndBlock(0, s.inode[dp].size);
    FillingsCount(s, t, dp, k);
    var six := {sb.bmapstart, sb.inodestart + inum / DI.IPB, AddrOf(v.blocks, v.inode, inum, SlotOf(0)),
                sb.inodestart + dp / DI.IPB, AddrOf(v.blocks, v.inode, dp, SlotOf(bn)),
                v.inode[dp].addrs[NDIRECT] as nat};
    var all := s.logged + Fillings(s, t, dp, k) + six;
    assert v.logged <= all;
    SubsetSize(v.logged, all);
  }

  /** What a successful create leaves in memory and on the disk: it has not made holes, and if all inodes were written
      through before, they are so exactly if the new file is a directory or there was no hole in the inode of its
      parent. */
  ghost predicate CreateKept(sb: FS.Super, reserved: set<nat>, s: FS.Snap, t: FS.Snap, dp: nat, inum: nat, kind: nat)
    requires dp < |s.inode| == |t.inode| && inum < |s.inode|
  {
    var es := List(s.blocks, s.inode, dp);
    && Since(sb, reserved, s, t, inum, dp) && FS.FreeBlank(t.inode) && Dense(t.blocks, t.inode, dp)
    && FS.AddrsKept(s.inode[dp], t.inode[dp])
    && FS.StoredKinds(sb, t.blocks, t.inode)
    && (FS.Synced(sb, s.blocks, s.inode) ==>
          (FS.Synced(sb, t.blocks, t.inode) <==> kind == T_DIR || FS.OwnThere(s.inode, dp, 0, s.inode[dp].size)))
    && (FS.Synced(sb, s.blocks, s.inode) && kind != T_DIR && FirstFree(es, 0) < |es| ==>
          FS.Synced(sb, t.blocks, s.inode[inum := t.inode[inum]]))
    && (sb.size <= BPB ==> |t.logged| <= |s.logged| + 6 + AllHoles(s.blocks, s.inode, dp))
  }

  /** create where the name is not there: ialloc, and what comes after it. It was looked for from state s on. */
  method MakeNew(fs: FS.FileSystem, dp: nat, name: seq<Byte>, kind: Half, major: Half, minor: Half,
                 ghost s: FS.Snap) returns (res: Outcome)
    requires fs.Valid() && FS.Consistent(fs.sb, fs.reserved, s.blocks, s.inode, s.owner)
    requires dp < |s.inode| == |fs.inode| <= 0x1_0000 && kind != 0
    requires FS.HolesFilled(fs.sb, s, fs.Now(), dp, 0, s.inode[dp].size)
    requires OnlyRead(s.blocks, s.inode, fs.blocks, fs.inode, dp)
    requires FS.StoredKinds(fs.sb, s.blocks, s.inode) && FS.FreeBlank(s.inode)
    requires s.inode[dp].kind == T_DIR && s.inode[dp].size % DESIZE == 0
    requires Entry(s.blocks, s.inode, dp, name) == |List(s.blocks, s.inode, dp)|
    modifies fs
    ensures fs.Valid() && dp < |s.inode| == |fs.inode|
    ensures res.Created? || (res.OutOfSpace? && FS.Full(fs.sb, fs.blocks)) || res.Panicked?
    ensures res.Panicked? ==>
      (forall j :: 1 <= j < |s.inode| ==> s.inode[j].kind != 0) || NoRoom(s.blocks, s.inode, dp)
    ensures res.Created? ==>
      && Made(s.blocks, s.inode, fs.blocks, fs.inode, dp, name, kind, major, minor, res.inum) && res.inum < |s.inode|
      && CreateKept(fs.sb, fs.reserved, s, fs.Now(), dp, res.inum, kind)
  {
    hide FS.Consistent, FS.Synced, FS.Full, FS.Home, FS.Carried, FS.DenseKept, FS.OthersKept, List, Insert, First, Cut;
    hide ByteAt, FS.FreeBlank, Dense, KeptBut, Contents, FS.WriteSet, FreeBlock, Since, OnlyRead, FS.HolesFilled;
    hide FS.OwnThere, AllHoles, FS.StoredKinds, FS.DInode, FS.StoredOthers, StoredBut, FirstFree, Dots;
    hide WrittenThrough, FS.AddrsKept, StoredStill, Made;
    ghost var s1 := fs.Now();
    ReadKept(fs.sb, fs.reserved, s, s1, dp);
    var ok, inum := fs.Ialloc(kind);
    SinceRead(fs.sb, fs.reserved, s, s1, inum, dp);
    if !ok {
      return Panicked;
    }
    ghost var s2 := fs.Now();
    InodeHome(fs, s1.logged, inum);
    SinceOne(fs.sb, fs.reserved, s1, s2, inum, dp, inum);
    SinceTwice(fs.sb, fs.reserved, s, s1, s2, inum, dp);
    SameList(s1.blocks, s1.inode, s2.blocks, s2.inode, inum, dp);
    StaysDense(fs.sb, fs.reserved, s1, s2, inum, dp);
    res := Enter(fs, dp, name, inum, kind, major, minor);
    if res.Created? {
      SinceTwice(fs.sb, fs.reserved, s, s2, fs.Now(), inum, dp);
      StaysBlank(fs.sb, fs.reserved, s, fs.Now(), inum, dp);
      FS.AddrsTwice(s.inode[dp], s1.inode[dp], fs.inode[dp]);
      MadeNow(fs.sb, fs.reserved, s, fs.Now(), dp, name, kind, major, minor, inum);
      CreateStored(fs.sb, fs.reserved, s, s1, s2, fs.Now(), dp, inum, kind);
      if fs.sb.size <= BPB {
        CreateCounts(fs.sb, fs.reserved, s, s1, fs.Now(), inum, dp, FreeBlock(List(s2.blocks, s2.inode, dp)));
      }
    }
  }

  /** create. Its first look for the name fills the holes of the directory in memory; iupdate follows only where the
      directory gets one more link. */
  method Create(fs: FS.FileSystem, dp: nat, name: seq<Byte>, kind: Half, major: Half,
                minor: Half) returns (res: Outcome)
    requires fs.Valid() && FS.StoredKinds(fs.sb, fs.blocks, fs.inode) && FS.FreeBlank(fs.inode)
    requires dp < |fs.inode| <= 0x1_0000 && kind != 0
    modifies fs
    ensures fs.Valid() && dp < |fs.inode| == |old(fs.inode)|
    ensures res.Opened? || res.Refused? ==>
      && OnlyRead(old(fs.blocks), old(fs.inode), fs.blocks, fs.inode, dp)
      && FS.DenseKept(old(fs.blocks), old(fs.inode), fs.blocks, fs.inode)
      && FS.StoredKinds(fs.sb, fs.blocks, fs.inode) && FS.FreeBlank(fs.inode)
      && (old(Dense(fs.blocks, fs.inode, dp)) ==> unchanged(fs))
      && old(Entry(fs.blocks, fs.inode, dp, name)) < |old(List(fs.blocks, fs.inode, dp))|
    ensures res.Opened? || res.Refused? ==>
      var i := old(List(fs.blocks, fs.inode, dp)[Entry(fs.blocks, fs.inode, dp, name)]).inum;
      i < |fs.inode| && (res == Opened(i) <==> kind == T_FILE && fs.inode[i].kind == T_FILE)
          && (res.Opened? ==> res.inum == i)
    ensures res.Created? ==>
      && old(Entry(fs.blocks, fs.inode, dp, name)) == |old(List(fs.blocks, fs.inode, dp))|
      && Made(old(fs.blocks), old(fs.inode), fs.blocks, fs.inode, dp, name, kind, major, minor, res.inum)
      && old(fs.inode)[dp].size % DESIZE == 0
    ensures res.Created? ==>
      res.inum < |fs.inode| && CreateKept(fs.sb, fs.reserved, old(fs.Now()), fs.Now(), dp, res.inum, kind)
    ensures res.OutOfSpace? ==> FS.Full(fs.sb, fs.blocks)
    ensures res.Panicked? ==> Impossible(old(fs.blocks), old(fs.inode), dp, name)
  {
    hide FS.Marked, Owned, FS.Layout, FS.StoredKinds, FS.Full, List, First, Cut, FS.FreeBlank, Dense, Contents,
         OnlyRead;
    hide FS.HolesFilled;
    hide Made, CreateKept, FS.DenseKept;
    ghost var s0 := fs.Now();
    var there := Dirlookup(fs, dp, name);
    OnlyReadContents(s0.blocks, s0.inode, fs.blocks, fs.inode, dp);
    if there.Panic? {
      return Panicked;
    }
    if there.NoSpace? {
      return OutOfSpace;
    }
    if there.Found? {
      if there.inum >= |fs.inode| || fs.inode[there.inum].kind == 0 {
        return Panicked;
      }
      FilledDense(fs.sb, fs.reserved, s0, fs.Now(), dp, 0, there.off + DESIZE);
      FilledKinds(fs.sb, fs.reserved, s0, fs.Now(), dp, 0, there.off + DESIZE);
      return if kind == T_FILE && fs.inode[there.inum].kind == T_FILE then Opened(there.inum) else Refused;
    }
    res := MakeNew(fs, dp, name, kind, major, minor, s0);
  }

  /** Where create panics: there is no proper directory, the name is that of a free inode, or inodes or the directory's
      entries run out. */
  ghost predicate Impossible(b: Image, n: seq<Inode>, dp: nat, name: seq<Byte>)
    requires dp < |n|
  {
    var es, e := List(b, n, dp), Entry(b, n, dp, name);
    || n[dp].kind != T_DIR
    || if e < |es| then es[e].inum >= |n| || n[es[e].inum].kind == 0
       else n[dp].size % DESIZE != 0 || (forall j :: 1 <= j < |n| ==> n[j].kind != 0) || NoRoom(b, n, dp)
  }
}
