/** Who holds files and cached inodes: over any run of open, dup, close, chdir, fork and exit, interleaved, every count
    is the number of holders. */
module References {
  import opened InodeCache

  /** What refers to a file: a descriptor of a process, or a call in progress. */
  datatype FileHolder = Fd(p: nat, fd: nat) | InCall(p: nat)

  /** What refers to a cached inode: an open file, a current directory, or a call in progress. */
  datatype InodeHolder = OpenFile(f: nat) | Cwd(p: nat) | Held(p: nat, k: nat)

  /** files are the counts of the file table; fptr and iptr are the pointers of the holders. */
  datatype State = State(files: seq<nat>, fptr: map<FileHolder, nat>, ents: seq<Entry>, iptr: map<InodeHolder, nat>)

  ghost function Holders<H>(ptr: map<H, nat>, x: nat): set<H>
  {
    set h | h in ptr && ptr[h] == x
  }

  // ---------- Steps of process p ----------

  /** filealloc: the first file with no references. */
  ghost predicate FileAlloc(s: State, s': State, p: nat)
  {
    && InCall(p) !in s.fptr
    && exists f :: 0 <= f < |s.files| && s.files[f] == 0 && (forall g :: 0 <= g < f ==> s.files[g] > 0)
         && s' == s.(files := s.files[f := 1], fptr := s.fptr[InCall(p) := f])
  }

  /** fdalloc: the reference goes to a free descriptor. */
  ghost predicate Install(s: State, s': State, p: nat, fd: nat)
  {
    && InCall(p) in s.fptr && Fd(p, fd) !in s.fptr
    && s' == s.(fptr := (s.fptr - {InCall(p)})[Fd(p, fd) := s.fptr[InCall(p)]])
  }

  /** filedup for a descriptor of q: sys_dup, where q is p, and fork, where q is the child. */
  ghost predicate FileDup(s: State, s': State, p: nat, fd: nat, q: nat, fd': nat)
  {
    && Fd(p, fd) in s.fptr && Fd(q, fd') !in s.fptr && s.fptr[Fd(p, fd)] < |s.files|
    && var f := s.fptr[Fd(p, fd)];
       s' == s.(files := s.files[f := s.files[f] + 1], fptr := s.fptr[Fd(q, fd') := f])
  }

  /** sys_close and exit clear the descriptor. */
  ghost predicate ClearFd(s: State, s': State, p: nat, fd: nat)
  {
    && Fd(p, fd) in s.fptr && InCall(p) !in s.fptr
    && s' == s.(fptr := (s.fptr - {Fd(p, fd)})[InCall(p) := s.fptr[Fd(p, fd)]])
  }

  /** fileclose when other references remain. */
  ghost predicate FileClose(s: State, s': State, p: nat)
  {
    && InCall(p) in s.fptr && s.fptr[InCall(p)] < |s.files| && s.files[s.fptr[InCall(p)]] > 1
    && var f := s.fptr[InCall(p)];
       s' == s.(files := s.files[f := s.files[f] - 1], fptr := s.fptr - {InCall(p)})
  }

  /** fileclose of the last reference: the file's inode reference is left to the call, which will put it. Without an
      inode it is a panic. */
  ghost predicate LastClose(s: State, s': State, p: nat, k: nat)
  {
    && InCall(p) in s.fptr && s.fptr[InCall(p)] < |s.files| && s.files[s.fptr[InCall(p)]] == 1
    && OpenFile(s.fptr[InCall(p)]) in s.iptr && Held(p, k) !in s.iptr
    && var f := s.fptr[InCall(p)];
       s' == State(s.files[f := 0], s.fptr - {InCall(p)}, s.ents,
                   (s.iptr - {OpenFile(f)})[Held(p, k) := s.iptr[OpenFile(f)]])
  }

  /** iget of an inode with a live entry. */
  ghost predicate GetCached(s: State, s': State, p: nat, k: nat, inum: nat)
  {
    && Held(p, k) !in s.iptr && Find(s.ents, inum, 0) < |s.ents|
    && var e := Find(s.ents, inum, 0);
       s' == s.(ents := s.ents[e := s.ents[e].(ref := s.ents[e].ref + 1)], iptr := s.iptr[Held(p, k) := e])
  }

  /** iget of another inode, in the first entry without references. */
  ghost predicate GetNew(s: State, s': State, p: nat, k: nat, inum: nat)
  {
    && Held(p, k) !in s.iptr && Find(s.ents, inum, 0) == |s.ents|
    && exists e :: 0 <= e < |s.ents| && s.ents[e].ref == 0 && (forall j :: 0 <= j < e ==> s.ents[j].ref > 0)
         && s' == s.(ents := s.ents[e := Entry(inum, 1, false)], iptr := s.iptr[Held(p, k) := e])
  }

  /** idup of the current directory, for the call itself or for a child's current directory. */
  ghost predicate DupCwd(s: State, s': State, p: nat, h: InodeHolder)
  {
    && Cwd(p) in s.iptr && s.iptr[Cwd(p)] < |s.ents| && !h.OpenFile? && h !in s.iptr
    && var e := s.iptr[Cwd(p)];
       s' == s.(ents := s.ents[e := s.ents[e].(ref := s.ents[e].ref + 1)], iptr := s.iptr[h := e])
  }

  /** iput of a reference held by the call, or of the current directory by chdir and exit. */
  ghost predicate Put(s: State, s': State, h: InodeHolder)
  {
    && h in s.iptr && !h.OpenFile? && s.iptr[h] < |s.ents| && s.ents[s.iptr[h]].ref > 0
    && var e := s.iptr[h];
       s' == s.(ents := s.ents[e := s.ents[e].(ref := s.ents[e].ref - 1)], iptr := s.iptr - {h})
  }

  /** f->ip = ip at the end of open, for a file that a descriptor of p names. */
  ghost predicate SetFile(s: State, s': State, p: nat, k: nat, fd: nat)
  {
    && Held(p, k) in s.iptr && Fd(p, fd) in s.fptr && OpenFile(s.fptr[Fd(p, fd)]) !in s.iptr
    && s' == s.(iptr := (s.iptr - {Held(p, k)})[OpenFile(s.fptr[Fd(p, fd)]) := s.iptr[Held(p, k)]])
  }

  /** cwd = ip at the end of chdir, and for the first process. */
  ghost predicate SetCwd(s: State, s': State, p: nat, k: nat)
  {
    && Held(p, k) in s.iptr && Cwd(p) !in s.iptr
    && s' == s.(iptr := (s.iptr - {Held(p, k)})[Cwd(p) := s.iptr[Held(p, k)]])
  }

  ghost predicate Next(s: State, s': State)
  {
    || (exists p :: FileAlloc(s, s', p) || FileClose(s, s', p))
    || (exists p, fd :: Install(s, s', p, fd) || ClearFd(s, s', p, fd))
    || (exists p, fd, q, fd' :: FileDup(s, s', p, fd, q, fd'))
    || (exists p, k :: LastClose(s, s', p, k) || SetCwd(s, s', p, k))
    || (exists p, k, inum :: GetCached(s, s', p, k, inum) || GetNew(s, s', p, k, inum))
    || (exists p, h :: DupCwd(s, s', p, h))
    || (exists h :: Put(s, s', h))
    || (exists p, k, fd :: SetFile(s, s', p, k, fd))
  }

  ghost predicate Init(s: State)
  {
    && s.fptr == map[] && s.iptr == map[]
    && (forall f :: 0 <= f < |s.files| ==> s.files[f] == 0) && (forall e :: 0 <= e < |s.ents| ==> s.ents[e].ref == 0)
  }

  ghost predicate Run(r: seq<State>)
  {
    r != [] && Init(r[0]) && forall k :: 0 <= k < |r| - 1 ==> Next(r[k], r[k + 1])
  }

  function Last(r: seq<State>): State
    requires r != []
  {
    r[|r| - 1]
  }

  // ---------- Invariants ----------

  /** Each count is the number of holders. */
  ghost predicate Counted<H>(counts: seq<nat>, ptr: map<H, nat>)
  {
    && (forall h :: h in ptr ==> 0 <= ptr[h] < |counts|)
    && forall x :: 0 <= x < |counts| ==> counts[x] == |Holders(ptr, x)|
  }

  function RefCounts(ents: seq<Entry>): (r: seq<nat>)
    ensures |r| == |ents|
  {
    seq(|ents|, e requires 0 <= e < |ents| => ents[e].ref)
  }

  /** A file's inode pointer counts only while the file is referred to. */
  ghost predicate FilesOpen(s: State)
  {
    forall f: nat :: OpenFile(f) in s.iptr ==> f < |s.files| && s.files[f] > 0
  }

  ghost predicate Inv(s: State)
  {
    Counted(s.files, s.fptr) && Counted(RefCounts(s.ents), s.iptr) && Unique(s.ents) && FilesOpen(s)
  }

  lemma CountAdd<H>(counts: seq<nat>, ptr: map<H, nat>, h: H, x: nat)
    requires Counted(counts, ptr) && h !in ptr && x < |counts|
    ensures Counted(counts[x := counts[x] + 1], ptr[h := x])
  {
    var ptr' := ptr[h := x];
    assert Holders(ptr', x) == Holders(ptr, x) + {h};
    forall y | 0 <= y < |counts| && y != x
      ensures Holders(ptr', y) == Holders(ptr, y)
    {
    }
  }

  lemma CountRemove<H>(counts: seq<nat>, ptr: map<H, nat>, h: H)
    requires Counted(counts, ptr) && h in ptr
    ensures counts[ptr[h]] > 0 && Counted(counts[ptr[h] := counts[ptr[h]] - 1], ptr - {h})
  {
    var x := ptr[h];
    assert h in Holders(ptr, x);
    assert Holders(ptr - {h}, x) == Holders(ptr, x) - {h};
    forall y | 0 <= y < |counts| && y != x
      ensures Holders(ptr - {h}, y) == Holders(ptr, y)
    {
    }
  }

  /** A reference that passes from one holder to another changes no count. */
  lemma CountMove<H>(counts: seq<nat>, ptr: map<H, nat>, h: H, h': H)
    requires Counted(counts, ptr) && h in ptr && h' !in ptr
    ensures Counted(counts, (ptr - {h})[h' := ptr[h]])
  {
    CountRemove(counts, ptr, h);
    var less := counts[ptr[h] := counts[ptr[h]] - 1];
    CountAdd(less, ptr - {h}, h', ptr[h]);
    assert less[ptr[h] := less[ptr[h]] + 1] == counts;
  }

  lemma FileSteps(s: State, s': State, p: nat, fd: nat, q: nat, fd': nat)
    requires Inv(s)
    requires FileAlloc(s, s', p) || Install(s, s', p, fd) || FileDup(s, s', p, fd, q, fd') || ClearFd(s, s', p, fd)
           || FileClose(s, s', p)
    ensures Inv(s')
  {
    if FileAlloc(s, s', p) {
      var f :| 0 <= f < |s.files| && s.files[f] == 0 && s' == s.(files := s.files[f := 1],
                                    fptr := s.fptr[InCall(p) := f]);
      CountAdd(s.files, s.fptr, InCall(p), f);
    } else if Install(s, s', p, fd) {
      CountMove(s.files, s.fptr, InCall(p), Fd(p, fd));
    } else if FileDup(s, s', p, fd, q, fd') {
      CountAdd(s.files, s.fptr, Fd(q, fd'), s.fptr[Fd(p, fd)]);
    } else if ClearFd(s, s', p, fd) {
      CountMove(s.files, s.fptr, Fd(p, fd), InCall(p));
    } else {
      CountRemove(s.files, s.fptr, InCall(p));
    }
    hide Counted;
  }

  lemma RefUpdate(ents: seq<Entry>, e: nat, x: Entry)
    requires e < |ents|
    ensures RefCounts(ents[e := x]) == RefCounts(ents)[e := x.ref]
  {
  }

  lemma GetCachedStep(s: State, s': State, p: nat, k: nat, inum: nat)
    requires Inv(s) && GetCached(s, s', p, k, inum)
    ensures Inv(s')
  {
    var e := Find(s.ents, inum, 0);
    var x := s.ents[e].(ref := s.ents[e].ref + 1);
    RefUpdate(s.ents, e, x);
    CountAdd(RefCounts(s.ents), s.iptr, Held(p, k), e);
    Changed(s.ents, e, x);
    hide Counted, Unique;
  }

  lemma GetNewStep(s: State, s': State, p: nat, k: nat, inum: nat)
    requires Inv(s) && GetNew(s, s', p, k, inum)
    ensures Inv(s')
  {
    var e :| 0 <= e < |s.ents| && s.ents[e].ref == 0
             && s' == s.(ents := s.ents[e := Entry(inum, 1, false)], iptr := s.iptr[Held(p, k) := e]);
    RefUpdate(s.ents, e, Entry(inum, 1, false));
    CountAdd(RefCounts(s.ents), s.iptr, Held(p, k), e);
    Changed(s.ents, e, Entry(inum, 1, false));
    hide Counted, Unique;
  }

  lemma DupStep(s: State, s': State, p: nat, h: InodeHolder)
    requires Inv(s) && DupCwd(s, s', p, h)
    ensures Inv(s')
  {
    var e := s.iptr[Cwd(p)];
    var x := s.ents[e].(ref := s.ents[e].ref + 1);
    assert Cwd(p) in Holders(s.iptr, e);
    RefUpdate(s.ents, e, x);
    RefAt(s.ents, e);
    CountAdd(RefCounts(s.ents), s.iptr, h, e);
    Changed(s.ents, e, x);
    hide Counted, Unique;
  }

  lemma PutStep(s: State, s': State, h: InodeHolder)
    requires Inv(s) && Put(s, s', h)
    ensures Inv(s')
  {
    var e := s.iptr[h];
    var x := s.ents[e].(ref := s.ents[e].ref - 1);
    RefUpdate(s.ents, e, x);
    RefAt(s.ents, e);
    CountRemove(RefCounts(s.ents), s.iptr, h);
    Changed(s.ents, e, x);
    hide Counted, Unique;
  }

  lemma MoveSteps(s: State, s': State, p: nat, k: nat, fd: nat)
    requires Inv(s) && (LastClose(s, s', p, k) || SetFile(s, s', p, k, fd) || SetCwd(s, s', p, k))
    ensures Inv(s')
  {
    if LastClose(s, s', p, k) {
      CountRemove(s.files, s.fptr, InCall(p));
      CountMove(RefCounts(s.ents), s.iptr, OpenFile(s.fptr[InCall(p)]), Held(p, k));
    } else if SetFile(s, s', p, k, fd) {
      assert Fd(p, fd) in Holders(s.fptr, s.fptr[Fd(p, fd)]);
      CountMove(RefCounts(s.ents), s.iptr, Held(p, k), OpenFile(s.fptr[Fd(p, fd)]));
    } else {
      CountMove(RefCounts(s.ents), s.iptr, Held(p, k), Cwd(p));
    }
    hide Unique, Holders;
  }

  lemma NextInv(s: State, s': State)
    requires Inv(s) && Next(s, s')
    ensures Inv(s')
  {
    hide Inv, FileAlloc, Install, FileDup, ClearFd, FileClose, LastClose, GetCached, GetNew, DupCwd, Put, SetFile,
         SetCwd;
    if p :| FileAlloc(s, s', p) || FileClose(s, s', p) {
      FileSteps(s, s', p, 0, 0, 0);
    } else if p, fd :| Install(s, s', p, fd) || ClearFd(s, s', p, fd) {
      FileSteps(s, s', p, fd, 0, 0);
    } else if p, fd, q, fd' :| FileDup(s, s', p, fd, q, fd') {
      FileSteps(s, s', p, fd, q, fd');
    } else if p, k :| LastClose(s, s', p, k) || SetCwd(s, s', p, k) {
      MoveSteps(s, s', p, k, 0);
    } else if p, k, inum :| GetCached(s, s', p, k, inum) || GetNew(s, s', p, k, inum) {
      if GetCached(s, s', p, k, inum) {
        GetCachedStep(s, s', p, k, inum);
      } else {
        GetNewStep(s, s', p, k, inum);
      }
    } else if p, h :| DupCwd(s, s', p, h) {
      DupStep(s, s', p, h);
    } else if h :| Put(s, s', h) {
      PutStep(s, s', h);
    } else {
      var p, k, fd :| SetFile(s, s', p, k, fd);
      MoveSteps(s, s', p, k, fd);
    }
  }

  lemma InitInv(s: State)
    requires Init(s)
    ensures Inv(s)
  {
    assert forall f: nat :: Holders(s.fptr, f) == {} && Holders(s.iptr, f) == {};
  }

  /** Every state of every run keeps all counts. */
  lemma {:induction false} RunInv(r: seq<State>)
    requires Run(r)
    ensures Inv(Last(r))
  {
    hide Inv, Next, Init;
    if |r| == 1 {
      InitInv(r[0]);
    } else {
      var before := r[..|r| - 1];
      RunInv(before);
      assert Last(before) == r[|r| - 2];
      NextInv(r[|r| - 2], r[|r| - 1]);
    }
  }

  // ---------- What the counts promise ----------

  /** f->ref is the number of descriptors and calls that name f; ip->ref the number of open files, current directories
      and calls that name ip; and no two live entries are for one inode. */
  lemma CountsAreHolders(r: seq<State>, f: nat, e: nat)
    requires Run(r) && f < |Last(r).files| && e < |Last(r).ents|
    ensures Last(r).files[f] == |Holders(Last(r).fptr, f)| && Last(r).ents[e].ref == |Holders(Last(r).iptr, e)|
    ensures Unique(Last(r).ents)
  {
    var s := Last(r);
    hide Run, Unique, Holders;
    RunInv(r);
    assert RefCounts(s.ents)[e] == s.ents[e].ref;
  }

  /** A file that a descriptor names has references: filedup and fileclose do not panic, and filealloc does not hand it
      out again. */
  lemma NamedFileKept(r: seq<State>, h: FileHolder)
    requires Run(r) && h in Last(r).fptr
    ensures Last(r).fptr[h] < |Last(r).files| && Last(r).files[Last(r).fptr[h]] > 0
  {
    var s := Last(r);
    hide Run, Unique;
    RunInv(r);
    assert h in Holders(s.fptr, s.fptr[h]);
  }

  /** While a holder keeps its pointer, the entry goes on caching the same inode. */
  lemma EntryNotRecycled(r: seq<State>, s': State, h: InodeHolder)
    requires Run(r) && Next(Last(r), s') && h in Last(r).iptr
    ensures var e := Last(r).iptr[h];
      e < |Last(r).ents| && Last(r).ents[e].ref > 0 && e < |s'.ents| && s'.ents[e].inum == Last(r).ents[e].inum
  {
    var s := Last(r);
    hide Run, Unique;
    RunInv(r);
    assert h in Holders(s.iptr, s.iptr[h]);
    assert RefCounts(s.ents)[s.iptr[h]] == s.ents[s.iptr[h]].ref;
    hide Inv, Counted, Holders, FilesOpen;
  }
}
