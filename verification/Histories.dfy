/** Runs of file system calls on the image that mkfs builds: every inode in use keeps a link, and holes do not arise. */
module Histories {
  import opened Bytes
  import opened BlockMap
  import opened Dirents
  import opened Params
  import C = Creation
  import D = Directory
  import FS = FileSystem
  import H = Holes
  import IC = InodeCache
  import M = Mkfs
  import Sets

  datatype State = State(blocks: Image, inode: seq<Inode>)

  ghost function At(fs: FS.FileSystem): State
    reads fs
  {
    State(fs.blocks, fs.inode)
  }

  /** Reading, writing and linking names: kinds and link counts stay. */
  ghost predicate Kept(s: State, t: State)
  {
    && |t.inode| == |s.inode|
    && forall i :: 0 <= i < |s.inode| ==> t.inode[i].kind == s.inode[i].kind && t.inode[i].nlink == s.inode[i].nlink
  }

  /** The arguments of create, and the inode it takes. */
  datatype NewFile = NewFile(dp: nat, name: seq<Byte>, kind: Half, major: Half, minor: Half, inum: nat)

  ghost predicate CreatedAs(s: State, t: State, f: NewFile)
  {
    && f.dp < |s.inode| == |t.inode| && f.kind != 0
    && C.Made(s.blocks, s.inode, t.blocks, t.inode, f.dp, f.name, f.kind, f.major, f.minor, f.inum)
  }

  ghost predicate Created(s: State, t: State)
  {
    exists f :: CreatedAs(s, t, f)
  }

  /** iput of the last reference to an inode without links. */
  ghost predicate Freed(s: State, t: State)
  {
    exists i | 0 <= i < |s.inode| && s.inode[i].kind != 0 && s.inode[i].nlink == 0 ::
      FS.OthersKept(s.blocks, s.inode, t.blocks, t.inode, i)
  }

  /** What a call may do to inodes. */
  ghost predicate Step(s: State, t: State)
  {
    FS.DenseKept(s.blocks, s.inode, t.blocks, t.inode) && (Kept(s, t) || Created(s, t) || Freed(s, t))
  }

  // ---------- The calls are steps ----------

  /** What the calls ask for and leave behind: the kernel's invariants, kinds stored as they are in memory, and nothing
      in free inodes. It holds of the image that mkfs builds. */
  ghost predicate Ready(fs: FS.FileSystem)
    reads fs
  {
    fs.Valid() && FS.StoredKinds(fs.sb, fs.blocks, fs.inode) && FS.FreeBlank(fs.inode)
  }

  method Read(fs: FS.FileSystem, i: nat, off: nat, n: nat) returns (res: FS.IoResult, dst: seq<Byte>)
    requires Ready(fs) && i < |fs.inode| && fs.inode[i].kind != 0 && off < FS.SIZE_T && n < FS.SIZE_T
    modifies fs
    ensures !res.NoSpace? ==> Ready(fs) && Step(old(At(fs)), At(fs))
    ensures res.NoSpace? ==> FS.Full(fs.sb, fs.blocks)
    ensures res.Refused? ==> off > old(fs.inode)[i].size || FS.Wraps(off, n)
    ensures res.Device? ==> old(fs.inode)[i].kind == T_DEV
    ensures res.Done? ==>
      res.n == |dst| && off <= old(fs.inode)[i].size
        && dst == old(Contents(fs.blocks, fs.inode, i))[off..FS.Min(off + n, old(fs.inode)[i].size)]
  {
    hide FS.Marked, Owned, FS.Layout, FS.HolesFilled, FS.Touches, FS.Synced, FS.OwnThere, SameBytes, Contents, FS.Full;
    hide FS.StoredKinds, FS.FreeBlank, Dense, FS.Wraps;
    ghost var s := fs.Now();
    res, dst := fs.ReadI(i, off, n);
    if res.Done? {
      H.FilledKinds(fs.sb, fs.reserved, s, fs.Now(), i, off, FS.Min(off + n, s.inode[i].size));
      H.FilledDense(fs.sb, fs.reserved, s, fs.Now(), i, off, FS.Min(off + n, s.inode[i].size));
    }
  }

  method Write(fs: FS.FileSystem, i: nat, off: nat, src: seq<Byte>) returns (res: FS.IoResult)
    requires Ready(fs) && i < |fs.inode| && fs.inode[i].kind != 0 && off < FS.SIZE_T && |src| < FS.SIZE_T
    modifies fs
    ensures !res.NoSpace? ==> Ready(fs) && Step(old(At(fs)), At(fs))
    ensures res.NoSpace? ==> FS.Full(fs.sb, fs.blocks)
    ensures res.Refused? ==>
      off > old(fs.inode)[i].size || FS.Wraps(off, |src|) || off + |src| > MAXFILE * BSIZE
    ensures res.Device? ==> old(fs.inode)[i].kind == T_DEV
    ensures res.Done? ==>
      && i < |fs.inode| && off <= old(fs.inode)[i].size
      && Contents(fs.blocks, fs.inode, i) == FS.Splice(old(Contents(fs.blocks, fs.inode, i)), off, src)
      && FS.OthersKept(old(fs.blocks), old(fs.inode), fs.blocks, fs.inode, i)
  {
    hide FS.Consistent, FS.Synced, FS.OwnThere, Contents, FS.Full, FS.Wraps, FS.WriteLogs, FS.LoggedOnly, FS.Covered;
    hide FS.Carried, FS.StoredOthers, FS.DInode, FS.Splice, Dense, FS.EndBlock, FS.StoredKinds;
    ghost var s := At(fs);
    res := fs.WriteI(i, off, src);
    if res.Done? {
      FS.KindsKept(fs.sb, s.blocks, s.inode, fs.blocks, fs.inode, i);
    }
  }

  method Link(fs: FS.FileSystem, dp: nat, name: seq<Byte>, inum: nat) returns (res: D.Link)
    requires Ready(fs) && dp < |fs.inode| && fs.inode[dp].kind != 0
    modifies fs
    ensures res.Linked? ==> Ready(fs) && Step(old(At(fs)), At(fs))
    ensures var es := old(D.List(fs.blocks, fs.inode, dp));
      match res
      case Linked =>
        && dp < |fs.inode| && First(es, Cut(name), 0) == |es|
        && D.List(fs.blocks, fs.inode, dp) == Insert(es, Dirent(inum % 0x1_0000, Cut(name)))
        && FS.OthersKept(old(fs.blocks), old(fs.inode), fs.blocks, fs.inode, dp)
      case Exists => First(es, Cut(name), 0) < |es|
      case LinkPanic =>
        || old(fs.inode)[dp].kind != T_DIR || old(fs.inode)[dp].size % DESIZE != 0
        || old(D.NoRoom(fs.blocks, fs.inode, dp))
      case LinkNoSpace => FS.Full(fs.sb, fs.blocks)
  {
    hide FS.Consistent, Contents, FS.Carried, FS.StoredOthers, FS.DInode, Dense, D.List, H.AllHoles, FS.Home,
         FS.OwnThere;
    hide FS.StoredKinds, FS.AddrsKept;
    ghost var s := At(fs);
    res := D.Dirlink(fs, dp, name, inum);
    if res.Linked? {
      FS.KindsKept(fs.sb, s.blocks, s.inode, fs.blocks, fs.inode, dp);
    }
  }

  method Create(fs: FS.FileSystem, dp: nat, name: seq<Byte>, kind: Half, major: Half,
                minor: Half) returns (res: C.Outcome)
    requires Ready(fs) && dp < |fs.inode| <= 0x1_0000 && kind != 0
    modifies fs
    ensures res.Created? || res.Opened? || res.Refused? ==> Ready(fs) && Step(old(At(fs)), At(fs))
    ensures res.Created? ==>
      && dp < |fs.inode| == |old(fs.inode)|
      && C.Made(old(fs.blocks), old(fs.inode), fs.blocks, fs.inode, dp, name, kind, major, minor, res.inum)
    ensures res.Opened? || res.Refused? ==>
      var es, k := old(D.List(fs.blocks, fs.inode, dp)), old(C.Entry(fs.blocks, fs.inode, dp, name));
      k < |es| && (res.Opened? ==> res.inum == es[k].inum)
    ensures res.Panicked? ==> C.Impossible(old(fs.blocks), old(fs.inode), dp, name)
    ensures res.OutOfSpace? ==> FS.Full(fs.sb, fs.blocks)
  {
    hide FS.Consistent, Contents, FS.Synced, FS.StoredKinds, FS.Carried, FS.DenseKept, Dense, D.List, H.AllHoles,
         FS.Home, C.Made;
    hide C.KeptBut, C.StoredBut, FS.FreeBlank, FS.AddrsKept, C.Impossible, FS.OwnThere;
    ghost var s := At(fs);
    res := C.Create(fs, dp, name, kind, major, minor);
    if res.Created? {
      assert CreatedAs(s, At(fs), NewFile(dp, name, kind, major, minor, res.inum));
    }
  }

  method Put(ic: IC.InodeCache, e: nat)
    requires ic.Valid() && Ready(ic.fs) && e < |ic.entries| && ic.entries[e].ref > 0
    modifies ic`entries, ic.fs
    ensures ic.Valid() && Ready(ic.fs) && Step(old(At(ic.fs)), At(ic.fs))
    ensures e < |ic.entries| == |old(ic.entries)| && ic.entries[e].ref == old(ic.entries)[e].ref - 1
    ensures IC.OneMore(ic.entries, old(ic.entries), old(ic.entries)[e].inum)
    ensures var x := old(ic.entries)[e];
      x.ref == 1 && x.valid && old(ic.fs.inode)[x.inum].nlink == 0 ==>
        x.inum < |ic.fs.inode| && ic.fs.inode[x.inum].kind == 0
  {
    hide FS.Consistent, Contents, Dense, IC.Unique, IC.OneMore, FS.StoredOthers, FS.DInode, FS.StoredKinds,
         FS.FreeBlank;
    ghost var s, x := At(ic.fs), ic.entries[e];
    ic.Iput(e);
    if x.ref == 1 && x.valid && s.inode[x.inum].nlink == 0 {
      FS.KindsKept(ic.fs.sb, s.blocks, s.inode, ic.fs.blocks, ic.fs.inode, x.inum);
    }
  }

  /** The image that mkfs builds. */
  lemma BuiltReady(fs: FS.FileSystem, b: Image, n: seq<Inode>, o: map<nat, Slot>)
    requires FS.Consistent(M.SuperBlock(), M.Below(M.NMETA), b, n, o) && FS.Synced(M.SuperBlock(), b, n)
    requires FS.FreeBlank(n) && |n| == M.NINODES && At(fs) == State(b, n) && fs.owner == o
    requires fs.sb == M.SuperBlock() && fs.reserved == M.Below(M.NMETA)
    ensures Ready(fs)
  {
    hide FS.Consistent, FS.DInode, FS.FreeBlank;
  }

  // ---------- Runs ----------

  /** Calls one after another, from the image that mkfs builds of these files. */
  ghost predicate Run(files: seq<M.Input>, run: seq<State>)
  {
    && run != [] && |files| + 2 <= M.NINODES == |run[0].inode| && M.Mkfs.Built(run[0].blocks, run[0].inode, files)
    && forall i :: 0 <= i < |run| - 1 ==> Step(run[i], run[i + 1])
  }

  ghost function Used(n: seq<Inode>): set<nat>
  {
    set i: nat | i < |n| && n[i].kind != 0
  }

  /** Every inode in use has a link, and none more links than there are inodes in use; so a link count does not wrap
      around. */
  ghost predicate Linked(n: seq<Inode>)
  {
    && 0 < |n| <= 0x1_0000 && n[0].kind == 0
    && forall i :: 0 <= i < |n| && n[i].kind != 0 ==> 1 <= n[i].nlink <= |Used(n)|
  }

  lemma {:induction false} FirstNumbers(n: nat) returns (s: set<nat>)
    ensures |s| == n && forall i: nat :: i in s <==> i < n
  {
    s := {};
    if n > 0 {
      var r := FirstNumbers(n - 1);
      s := r + {n - 1};
    }
  }

  /** Inode 0 is never used. */
  lemma UsedFew(n: seq<Inode>)
    requires 0 < |n| && n[0].kind == 0
    ensures |Used(n)| < |n|
  {
    var s := FirstNumbers(|n|);
    Sets.SubsetSize(Used(n) + {0}, s);
  }

  lemma StepLinked(s: State, t: State)
    requires Linked(s.inode) && Step(s, t)
    ensures Linked(t.inode) && !Freed(s, t)
  {
    hide CreatedAs, FS.DenseKept, FS.OthersKept;
    if Kept(s, t) {
      KeptLinked(s, t);
    } else if Created(s, t) {
      var f :| CreatedAs(s, t, f);
      CreatedLinked(s, t, f);
    }
  }

  lemma KeptLinked(s: State, t: State)
    requires Linked(s.inode) && Kept(s, t)
    ensures Linked(t.inode)
  {
    assert Used(t.inode) == Used(s.inode);
  }

  /** One inode more in use, with one link; one link more or none for its directory. */
  ghost predicate OneNew(n: seq<Inode>, n': seq<Inode>, dp: nat, inum: nat)
  {
    && |n'| == |n| && dp < |n| && 1 <= inum < |n| && inum != dp
    && n[inum].kind == 0 && n'[inum].kind != 0 && n'[inum].nlink == 1
    && n'[dp].kind == n[dp].kind && (n'[dp].nlink == n[dp].nlink || n'[dp].nlink == (n[dp].nlink + 1) % 0x1_0000)
    && forall j :: 0 <= j < |n| && j != inum && j != dp ==> n'[j] == n[j]
  }

  lemma CreatedOne(s: State, t: State, f: NewFile)
    requires CreatedAs(s, t, f)
    ensures OneNew(s.inode, t.inode, f.dp, f.inum)
  {
    hide D.List, C.Dots, Contents;
  }

  lemma CreatedLinked(s: State, t: State, f: NewFile)
    requires Linked(s.inode) && CreatedAs(s, t, f)
    ensures Linked(t.inode)
  {
    CreatedOne(s, t, f);
    hide CreatedAs;
    OneNewLinked(s.inode, t.inode, f.dp, f.inum);
  }

  lemma OneNewLinked(n: seq<Inode>, n': seq<Inode>, dp: nat, inum: nat)
    requires Linked(n) && OneNew(n, n', dp, inum)
    ensures Linked(n')
  {
    assert Used(n') == Used(n) + {inum};
    UsedFew(n');
  }

  lemma BuiltLinked(b: Image, n: seq<Inode>, files: seq<M.Input>)
    requires |files| + 2 <= |n| == M.NINODES && M.Mkfs.Built(b, n, files)
    ensures Linked(n) && forall i :: 0 <= i < |n| && i != ROOTINO ==> Dense(b, n, i)
  {
    hide Contents, M.RootBytes;
    assert ROOTINO in Used(n);
    Sets.SubsetSize({ROOTINO}, Used(n));
    forall i | 0 <= i < |n| && i != ROOTINO
      ensures Dense(b, n, i) && (n[i].kind != 0 ==> n[i].nlink == 1)
    {
      if 2 <= i < 2 + |files| {
        assert M.HoldsFile(b, n, 2 + (i - 2), files[i - 2].data);
      }
    }
  }

  /** In every state of every run each inode in use has a link, so no inode is ever freed; and no file has a hole, other
      than a root directory that was built with one. */
  lemma {:induction false} AlwaysLinked(files: seq<M.Input>, run: seq<State>, i: nat)
    requires Run(files, run) && i < |run|
    ensures Linked(run[i].inode) && IC.AllLinked(run[i].inode) && |run[i].inode| == M.NINODES
    ensures i + 1 < |run| ==> !Freed(run[i], run[i + 1])
    ensures forall j :: 0 <= j < |run[i].inode| && j != ROOTINO ==> Dense(run[i].blocks, run[i].inode, j)
    ensures |files| % 32 != 30 ==> Dense(run[i].blocks, run[i].inode, ROOTINO)
  {
    hide Dense, M.Mkfs.Built, Step;
    if i == 0 {
      BuiltLinked(run[0].blocks, run[0].inode, files);
      M.Mkfs.RootHole(run[0].blocks, run[0].inode, files);
    } else {
      AlwaysLinked(files, run, i - 1);
      assert Step(run[i - 1], run[i - 1 + 1]);
      StepLinked(run[i - 1], run[i]);
      StepDense(run[i - 1], run[i]);
    }
    if i + 1 < |run| {
      assert Step(run[i], run[i + 1]);
      StepLinked(run[i], run[i + 1]);
    }
  }

  lemma StepDense(s: State, t: State)
    requires Step(s, t)
    ensures FS.DenseKept(s.blocks, s.inode, t.blocks, t.inode)
  {
  }
}
