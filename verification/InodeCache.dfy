/** The inode cache's reference counts, and path lookup through it. */
module InodeCache {
  import opened Bytes
  import opened BlockMap
  import opened DiskInodes
  import opened Dirents
  import opened Directory
  import opened Params
  import opened Paths
  import FS = FileSystem

  const NINODE: nat := 50

  /** A cache entry; what it caches of the inode itself is the file system's in-memory inode. */
  datatype Entry = Entry(inum: nat, ref: nat, valid: bool)

  predicate Caches(x: Entry, inum: nat)
  {
    x.ref > 0 && x.inum == inum
  }

  /** No two live entries are for the same inode. */
  ghost predicate Unique(es: seq<Entry>)
  {
    forall a, b :: 0 <= a < b < |es| && es[a].ref > 0 && es[b].ref > 0 ==> es[a].inum != es[b].inum
  }

  /** The first live entry for inum from k on; |es| if none. */
  function Find(es: seq<Entry>, inum: nat, k: nat): (r: nat)
    requires k <= |es|
    ensures k <= r <= |es| && (r < |es| ==> Caches(es[r], inum))
    ensures forall j :: k <= j < r ==> !Caches(es[j], inum)
    decreases |es| - k
  {
    if k == |es| || Caches(es[k], inum) then k else Find(es, inum, k + 1)
  }

  /** References to inode inum. */
  function RefOf(es: seq<Entry>, inum: nat): nat
  {
    if Find(es, inum, 0) < |es| then es[Find(es, inum, 0)].ref else 0
  }

  lemma RefAt(es: seq<Entry>, e: nat)
    requires Unique(es) && e < |es| && es[e].ref > 0
    ensures RefOf(es, es[e].inum) == es[e].ref
  {
  }

  /** One reference more or less in entry e, for the inode that it caches or comes to cache. */
  lemma Changed(es: seq<Entry>, e: nat, x: Entry)
    requires Unique(es) && e < |es|
    requires x.ref > 0 ==> (es[e].ref > 0 && es[e].inum == x.inum) || RefOf(es, x.inum) == 0
    requires es[e].ref == 0 || x.inum == es[e].inum
    ensures Unique(es[e := x])
    ensures forall j ::
        RefOf(es[e := x], j) == if j == x.inum && (x.ref > 0 || es[e].ref > 0) then x.ref else RefOf(es, j)
  {
    var es' := es[e := x];
    assert Unique(es') by {
      forall a | 0 <= a < |es| && a != e && es[a].ref > 0 && x.ref > 0
        ensures es[a].inum != x.inum
      {
        RefAt(es, a);
      }
    }
    forall j
      ensures RefOf(es', j) == if j == x.inum && (x.ref > 0 || es[e].ref > 0) then x.ref else RefOf(es, j)
    {
      ChangedOne(es, e, x, j);
    }
  }

  lemma ChangedOne(es: seq<Entry>, e: nat, x: Entry, j: nat)
    requires Unique(es) && e < |es| && Unique(es[e := x])
    requires x.ref > 0 ==> (es[e].ref > 0 && es[e].inum == x.inum) || RefOf(es, x.inum) == 0
    requires es[e].ref == 0 || x.inum == es[e].inum
    ensures RefOf(es[e := x], j) == if j == x.inum && (x.ref > 0 || es[e].ref > 0) then x.ref else RefOf(es, j)
  {
    var es' := es[e := x];
    var f, f' := Find(es, j, 0), Find(es', j, 0);
    if f < |es| && f != e {
      assert es'[f] == es[f];
      RefAt(es', f);
    }
    if f' < |es| && f' != e {
      assert es'[f'] == es[f'];
      RefAt(es, f');
    }
    if j == x.inum && x.ref > 0 {
      RefAt(es', e);
    }
  }

  // ---------- Path lookup ----------

  datatype Target = Leads(inum: nat) | Nowhere | Halted

  /** The fold of directory lookup over the names of a path: in parent mode it stops before the last name. Halted is a
      panic: an inode without type, or a directory that is no whole number of entries. */
  ghost function Walk(b: Image, n: seq<Inode>, i: nat, names: seq<seq<Byte>>, parent: bool): Target
    decreases names
  {
    if names == [] then if parent then Nowhere else Leads(i)
    else if i >= |n| || n[i].kind == 0 then Halted
    else if n[i].kind != T_DIR then Nowhere
    else if parent && |names| == 1 then Leads(i)
    else
      var es := List(b, n, i);
      var k := First(es, Cut(names[0]), 0);
      if k < |es| then Walk(b, n, es[k].inum, names[1..], parent)
      else if n[i].size % DESIZE == 0 then Nowhere else Halted
  }

  /** A single name is looked up in the finite map that the directory stands for. */
  lemma WalkOne(b: Image, n: seq<Inode>, i: nat, m: map<seq<Byte>, nat>, name: seq<Byte>)
    requires i < |n| && Represents(List(b, n, i), m)
    ensures var t := Walk(b, n, i, [name], false);
      if n[i].kind == 0 then t == Halted
      else if n[i].kind != T_DIR then t == Nowhere
      else if Cut(name) in m then t == Leads(m[Cut(name)])
      else t == if n[i].size % 16 == 0 then Nowhere else Halted
  {
    LookupIsMap(List(b, n, i), m, Cut(name));
    hide First, List, Represents;
    assert [name][1..] == [];
  }

  /** Names one after the other: from where the first of them lead, the others go on. */
  lemma {:induction false} WalkOn(b: Image, n: seq<Inode>, i: nat, names: seq<seq<Byte>>, more: seq<seq<Byte>>,
                                  parent: bool)
    requires more != []
    ensures Walk(b, n, i, names + more, parent) ==
      match Walk(b, n, i, names, false)
      case Leads(j) => Walk(b, n, j, more, parent)
      case t => t
    decreases names
  {
    hide First, List;
    if names == [] {
      assert names + more == more;
    } else {
      var all := names + more;
      assert all[0] == names[0] && all[1..] == names[1..] + more && |all| > 1;
      if i < |n| && n[i].kind == T_DIR {
        var es := List(b, n, i);
        var k := First(es, Cut(names[0]), 0);
        if k < |es| {
          WalkOn(b, n, es[k].inum, names[1..], more, parent);
        }
      }
    }
  }

  /** nameiparent gives the directory in which namei finds the last name. */
  lemma WalkParent(b: Image, n: seq<Inode>, i: nat, names: seq<seq<Byte>>)
    requires names != []
    ensures Walk(b, n, i, names, false) ==
      match Walk(b, n, i, names, true)
      case Leads(d) => Walk(b, n, d, [names[|names|-1]], false)
      case t => t
  {
    var up, last := names[..|names|-1], [names[|names|-1]];
    assert names == up + last;
    WalkOn(b, n, i, up, last, false);
    WalkOn(b, n, i, up, last, true);
    hide First, List;
    assert last[1..] == [];
  }

  /** Contents and kinds of all files are the same; block addresses may differ. */
  ghost predicate SameFiles(b: Image, n: seq<Inode>, b': Image, n': seq<Inode>)
  {
    && |n'| == |n|
    && forall i :: 0 <= i < |n| ==>
         n'[i].kind == n[i].kind && n'[i].size == n[i].size && n'[i].nlink == n[i].nlink
           && Contents(b', n', i) == Contents(b, n, i)
  }

  lemma ReadSame(b0: Image, n0: seq<Inode>, b: Image, n: seq<Inode>, b': Image, n': seq<Inode>, i: nat)
    requires SameFiles(b0, n0, b, n) && i < |n| && OnlyRead(b, n, b', n', i)
    ensures SameFiles(b0, n0, b', n')
  {
    OnlyReadContents(b, n, b', n', i);
    hide Contents;
  }

  /** In a system without unlink every inode in use has a link. */
  ghost predicate AllLinked(n: seq<Inode>)
  {
    forall i :: 0 <= i < |n| && n[i].kind != 0 ==> n[i].nlink > 0
  }

  /** Refs' counts one reference more for inode i than Refs. */
  ghost predicate OneMore(es: seq<Entry>, es': seq<Entry>, i: nat)
  {
    forall j :: RefOf(es', j) == RefOf(es, j) + if j == i then 1 else 0
  }

  ghost predicate SameRefs(es: seq<Entry>, es': seq<Entry>)
  {
    forall j :: RefOf(es', j) == RefOf(es, j)
  }

  /** An entry marked valid caches an inode in use. */
  ghost predicate Read(es: seq<Entry>, n: seq<Inode>)
  {
    forall e :: 0 <= e < |es| && es[e].ref > 0 && es[e].valid ==> es[e].inum < |n| && n[es[e].inum].kind != 0
  }

  /** No entry but e has changed. */
  ghost predicate OnlyEntry(es: seq<Entry>, es': seq<Entry>, e: nat)
  {
    |es'| == |es| && e < |es| && forall j :: 0 <= j < |es| && j != e ==> es'[j] == es[j]
  }

  /** Every cache entry is in use. */
  ghost predicate NoneFree(es: seq<Entry>)
  {
    forall e :: 0 <= e < |es| ==> es[e].ref > 0
  }

  datatype Lookup = Got(e: nat) | None | Panicked

  datatype StepResult = Stop(res: Lookup) | Next(e: nat)

  /** What a lookup that ought to lead to t may come to. */
  ghost predicate WalkDone(res: Lookup, t: Target, es0: seq<Entry>, es: seq<Entry>, full: bool)
  {
    match res
    case Got(e) => e < |es| && Caches(es[e], es[e].inum) && t == Leads(es[e].inum) && OneMore(es0, es, es[e].inum)
    case None => t == Nowhere && SameRefs(es0, es)
    case Panicked => t == Halted || NoneFree(es) || full
  }

  ghost predicate StepDone(s: StepResult, t: Target, es0: seq<Entry>, es: seq<Entry>, last: bool, full: bool)
  {
    match s
    case Stop(res) => WalkDone(res, t, es0, es, full) && (res.Got? ==> last)
    case Next(e) => e < |es| && es[e].ref > 0 && OneMore(es0, es, es[e].inum) && !last
  }

  /** What skipelem has left: the next name in the buffer, the others after it. */
  ghost predicate Element(path: seq<Byte>, p: nat, found: bool, next: nat, name: seq<Byte>)
    requires p <= next <= |path|
  {
    var names := Names(path[p..]);
    if found then
      && p < next && (next < |path| ==> path[next] != SLASH) && names != [] && Cut(name) == Cut(names[0])
      && names[1..] == Names(path[next..])
    else names == []
  }

  ghost predicate SameLast(path: seq<Byte>, p: nat)
    requires p <= |path|
  {
    var names, all := Names(path[p..]), Names(path);
    names != [] ==> all != [] && all[|all|-1] == names[|names|-1]
  }

  /** The name in the buffer is the last one exactly if the path has come to its end. */
  lemma LastElement(path: seq<Byte>, p: nat, next: nat, name: seq<Byte>)
    requires p <= next <= |path| && Element(path, p, true, next, name) && SameLast(path, p)
    ensures Names(path[p..]) != [] && (|Names(path[p..])| == 1 <==> next == |path|) && SameLast(path, next)
    ensures next == |path| ==> Names(path) != [] && Cut(name) == Cut(Names(path)[|Names(path)|-1])
  {
    var names := Names(path[p..]);
    if next < |path| {
      NotEmpty(path[next..]);
    } else {
      assert path[next..] == [];
    }
  }

  lemma NotEmpty(path: seq<Byte>)
    requires path != [] && path[0] != SLASH
    ensures Names(path) != []
  {
  }

  lemma WalkEnd(b: Image, n: seq<Inode>, i: nat, parent: bool)
    ensures Walk(b, n, i, [], parent) == if parent then Nowhere else Leads(i)
  {
  }

  /** The fold's first step, seen in a state with the same files. */
  lemma WalkHere(b0: Image, n0: seq<Inode>, b: Image, n: seq<Inode>, i: nat, names: seq<seq<Byte>>, parent: bool)
    requires SameFiles(b0, n0, b, n) && names != []
    ensures var t := Walk(b0, n0, i, names, parent);
      if i >= |n| || n[i].kind == 0 then t == Halted
      else if n[i].kind != T_DIR then t == Nowhere
      else if parent && |names| == 1 then t == Leads(i)
      else
        var es := List(b, n, i);
        var k := First(es, Cut(names[0]), 0);
        if k < |es| then t == Walk(b0, n0, es[k].inum, names[1..], parent)
        else t == if n[i].size % DESIZE == 0 then Nowhere else Halted
  {
  }

  lemma SameStart(b: Image, n: seq<Inode>)
    ensures SameFiles(b, n, b, n)
  {
  }

  lemma SameSizes(b0: Image, n0: seq<Inode>, b: Image, n: seq<Inode>)
    requires SameFiles(b0, n0, b, n)
    ensures |n| == |n0|
  {
  }

  // How reference counts and entries move along.

  lemma RefsSame(es0: seq<Entry>, es: seq<Entry>, es': seq<Entry>, i: nat)
    requires OneMore(es0, es, i) && SameRefs(es, es')
    ensures OneMore(es0, es', i)
  {
    hide RefOf;
  }

  lemma RefsBack(es0: seq<Entry>, es: seq<Entry>, es': seq<Entry>, i: nat)
    requires OneMore(es0, es, i) && OneMore(es', es, i)
    ensures SameRefs(es0, es')
  {
    hide RefOf;
  }

  lemma RefsMove(es0: seq<Entry>, es1: seq<Entry>, es2: seq<Entry>, es3: seq<Entry>, i: nat, j: nat)
    requires OneMore(es0, es1, i) && OneMore(es1, es2, j) && OneMore(es3, es2, i)
    ensures OneMore(es0, es3, j)
  {
    hide RefOf;
  }

  lemma ReadGot(es: seq<Entry>, es': seq<Entry>, n: seq<Inode>, e: nat)
    requires Read(es, n) && e < |es| && OnlyEntry(es, es', e)
    requires es'[e].valid ==> es[e].ref > 0 && es'[e].inum == es[e].inum && es[e].valid
    ensures Read(es', n)
  {
  }

  lemma ReadLocked(es: seq<Entry>, es': seq<Entry>, n: seq<Inode>, e: nat, ok: bool)
    requires Read(es, n) && e < |es| && OnlyEntry(es, es', e) && es'[e] == es[e].(valid := ok || es[e].valid)
    requires ok ==> es[e].inum < |n| && n[es[e].inum].kind != 0
    ensures Read(es', n)
  {
  }

  lemma ReadKinds(es: seq<Entry>, n: seq<Inode>, n': seq<Inode>)
    requires Read(es, n) && |n'| == |n| && forall i :: 0 <= i < |n| ==> n'[i].kind == n[i].kind
    ensures Read(es, n')
  {
  }

  class InodeCache {
    const fs: FS.FileSystem
    var entries: seq<Entry>

    ghost predicate Valid()
      reads this, fs
    {
      fs.Valid() && Unique(entries) && Read(entries, fs.inode)
    }

    /** iinit: no references. */
    constructor (fs: FS.FileSystem)
      ensures this.fs == fs && Unique(entries) && |entries| == NINODE && forall j :: RefOf(entries, j) == 0
    {
      this.fs := fs;
      entries := seq(NINODE, _ => Entry(0, 0, false));
    }

    /** iget: a reference to inode inum, through its live entry or the first empty one. false is the panic when there is
        neither. */
    method Iget(inum: nat) returns (ok: bool, e: nat)
      requires Unique(entries)
      modifies this`entries
      ensures !ok ==>
          entries == old(entries) && Find(entries, inum, 0) == |entries| && forall j :: 0 <= j < |entries| ==>
              entries[j].ref > 0
      ensures ok ==>
          Unique(entries) && e < |entries| == |old(entries)| && Caches(entries[e], inum)
            && OneMore(old(entries), entries, inum)
      ensures ok ==>
        && OnlyEntry(old(entries), entries, e)
        && entries[e] == if old(entries)[e].ref > 0 then old(entries)[e].(ref := old(entries)[e].ref + 1)
            else Entry(inum, 1, false)
    {
      var ip: nat, empty: nat := 0, |entries|;
      while ip < |entries|
        invariant ip <= |entries| && entries == old(entries) && Find(entries, inum, 0) == Find(entries, inum, ip)
        invariant empty == |entries| || (empty < ip && entries[empty].ref == 0)
        invariant empty == |entries| ==> forall j :: 0 <= j < ip ==> entries[j].ref > 0
      {
        if entries[ip].ref > 0 && entries[ip].inum == inum {
          var x := entries[ip].(ref := entries[ip].ref + 1);
          RefAt(entries, ip);
          Changed(entries, ip, x);
          entries := entries[ip := x];
          return true, ip;
        }
        if empty == |entries| && entries[ip].ref == 0 {
          empty := ip;
        }
        ip := ip + 1;
      }
      if empty == |entries| {
        return false, 0;
      }
      var x := Entry(inum, 1, false);
      Changed(entries, empty, x);
      entries := entries[empty := x];
      return true, empty;
    }

    /** idup. */
    method Idup(e: nat)
      requires Unique(entries) && e < |entries| && entries[e].ref > 0
      modifies this`entries
      ensures Unique(entries) && OnlyEntry(old(entries), entries, e)
            && entries[e] == old(entries)[e].(ref := old(entries)[e].ref + 1)
      ensures OneMore(old(entries), entries, old(entries)[e].inum)
    {
      var x := entries[e].(ref := entries[e].ref + 1);
      RefAt(entries, e);
      Changed(entries, e, x);
      entries := entries[e := x];
    }

    /** ilock, for one process at a time: the inode is read if need be. false is the panic on an inode without type, or
        beyond the inode blocks. */
    method Ilock(e: nat) returns (ok: bool)
      requires Unique(entries) && e < |entries| && entries[e].ref > 0
      modifies this`entries
      ensures Unique(entries) && OnlyEntry(old(entries), entries, e)
      ensures entries[e] == old(entries)[e].(valid := ok || old(entries)[e].valid)
      ensures ok <==> entries[e].inum < |fs.inode| && fs.inode[entries[e].inum].kind != 0
      ensures SameRefs(old(entries), entries)
    {
      var x := entries[e];
      ok := x.inum < |fs.inode| && fs.inode[x.inum].kind != 0;
      RefAt(entries, e);
      Changed(entries, e, x.(valid := ok || x.valid));
      entries := entries[e := x.(valid := ok || x.valid)];
    }

    /** iput: one reference less; with the last reference to an inode without links its blocks are freed and its type
        cleared. */
    method Iput(e: nat)
      requires Valid() && e < |entries| && entries[e].ref > 0
      modifies this`entries, fs
      ensures OnlyEntry(old(entries), entries, e) && entries[e].inum == old(entries)[e].inum
      ensures entries[e].ref == old(entries)[e].ref - 1
      ensures entries[e].valid <==>
        old(entries)[e].valid && !(old(entries)[e].ref == 1 && old(fs.inode)[entries[e].inum].nlink == 0)
      ensures OneMore(entries, old(entries), old(entries)[e].inum)
      ensures var x := old(entries)[e];
        if x.ref == 1 && x.valid && old(fs.inode)[x.inum].nlink == 0
        then
          && fs.owner == old(fs.owner) - FS.FileSystem.OfInode(old(fs.owner), x.inum) && x.inum < |fs.inode|
          && fs.inode[x.inum].kind == 0 && FS.OthersKept(old(fs.blocks), old(fs.inode), fs.blocks, fs.inode, x.inum)
          && FS.DenseKept(old(fs.blocks), old(fs.inode), fs.blocks, fs.inode)
          && FS.StoredOthers(fs.sb, old(fs.blocks), fs.blocks, x.inum) && x.inum < fs.sb.ninodes
          && FS.DInode(fs.sb, fs.blocks, x.inum) == fs.inode[x.inum]
          && (old(FS.FreeBlank(fs.inode)) ==> FS.FreeBlank(fs.inode))
        else fs.blocks == old(fs.blocks) && fs.inode == old(fs.inode) && fs.owner == old(fs.owner)
      ensures Valid()
    {
      hide FS.Consistent, Contents, FS.DenseKept, FS.DInode, FS.FreeBlank;
      var x := entries[e];
      ghost var es, n := entries, fs.inode;
      RefAt(entries, e);
      if x.ref == 1 && x.valid && fs.inode[x.inum].nlink == 0 {
        FreeInode(x.inum);
        Changed(entries, e, Entry(x.inum, 0, false));
        entries := entries[e := Entry(x.inum, 0, false)];
        ReadAfterFree(es, n, fs.inode, e);
      } else {
        Changed(entries, e, x.(ref := x.ref - 1));
        entries := entries[e := x.(ref := x.ref - 1)];
      }
    }

    static lemma ReadAfterFree(es: seq<Entry>, n: seq<Inode>, n': seq<Inode>, e: nat)
      requires e < |es| && es[e].ref > 0 && Unique(es) && Read(es, n) && |n'| == |n|
      requires forall j :: 0 <= j < |n| && j != es[e].inum ==> n'[j] == n[j]
      ensures Read(es[e := Entry(es[e].inum, 0, false)], n')
    {
    }

    /** itrunc(ip); ip->type = 0; iupdate(ip): on the disk too the inode is free, and the other inodes are as they
        were. */
    method FreeInode(i: nat)
      requires fs.Valid() && i < |fs.inode|
      modifies fs
      ensures fs.Valid() && i < |fs.inode| && fs.owner == old(fs.owner) - FS.FileSystem.OfInode(old(fs.owner), i)
      ensures fs.inode[i].kind == 0 && FS.OthersKept(old(fs.blocks), old(fs.inode), fs.blocks, fs.inode, i)
      ensures FS.StoredOthers(fs.sb, old(fs.blocks), fs.blocks, i) && FS.DInode(fs.sb, fs.blocks, i) == fs.inode[i]
      ensures FS.Carried(fs.reserved, old(fs.blocks), old(fs.owner), fs.blocks, fs.owner, fs.logged)
      ensures old(FS.FreeBlank(fs.inode)) ==> FS.FreeBlank(fs.inode)
      ensures FS.DenseKept(old(fs.blocks), old(fs.inode), fs.blocks, fs.inode)
      ensures FS.BitmapOnly(fs.sb, old(fs.logged) + {fs.sb.inodestart + i / IPB}, fs.logged)
    {
      hide FS.Marked, FS.Layout, Owned, ByteAt, FS.StoredOthers, FS.DInode, FS.SameAddrs, FS.OthersKept, Contents,
           SameBytes, FS.Carried, FS.DenseKept;
      ghost var b0, n0, o0 := fs.blocks, fs.inode, fs.owner;
      var ok := fs.Itrunc(i);
      ghost var b1, n1, l1 := fs.blocks, fs.inode, fs.logged;
      FS.MetaOnly(fs.blocks, fs.inode, fs.owner, i, fs.inode[i].(kind := 0));
      fs.inode := fs.inode[i := fs.inode[i].(kind := 0)];
      fs.Iupdate(i);
      KindOnly(fs.sb, b0, n0, b1, n1, fs.blocks, i);
      FS.FileSystem.ChangedThen(fs.sb, fs.reserved, b0, o0, b1, fs.blocks, fs.owner, l1, fs.logged, i);
      FS.FileSystem.FreedDense(fs.sb, fs.reserved, b0, n0, o0, fs.blocks, fs.inode, fs.owner, i);
    }

    static lemma KindOnly(sb: FS.Super, b0: Image, n0: seq<Inode>, b: Image, n: seq<Inode>, b': Image, i: nat)
      requires i < |n| && FS.OthersKept(b0, n0, b, n, i) && FS.StoredOthers(sb, b0, b, i)
             && FS.StoredOthers(sb, b, b', i)
      requires var n' := n[i := n[i].(kind := 0)]; SameBytes(b, n, b, n') && SameBytes(b, n', b', n')
      ensures FS.OthersKept(b0, n0, b', n[i := n[i].(kind := 0)], i) && FS.StoredOthers(sb, b0, b', i)
    {
      hide ByteAt, FS.DInode;
    }

    /** iput of an inode that has links, or was never read: only the reference goes. */
    method PutLinked(e: nat, ghost b0: Image, ghost n0: seq<Inode>)
      requires Valid() && e < |entries| && entries[e].ref > 0 && AllLinked(n0) && SameFiles(b0, n0, fs.blocks, fs.inode)
      modifies this`entries, fs
      ensures OnlyEntry(old(entries), entries, e) && entries[e].inum == old(entries)[e].inum
      ensures entries[e].ref == old(entries)[e].ref - 1
      ensures OneMore(entries, old(entries), old(entries)[e].inum) && SameFiles(b0, n0, fs.blocks, fs.inode)
      ensures fs.blocks == old(fs.blocks) && fs.inode == old(fs.inode)
      ensures Valid()
    {
      hide FS.Consistent, Contents, Unique, OneMore;
      Iput(e);
    }

    /** One round of namex's loop, for the names from the current one on. */
    method Step(ip: nat, last: bool, nm: seq<Byte>, ghost b0: Image, ghost n0: seq<Inode>, ghost es0: seq<Entry>,
                ghost names: seq<seq<Byte>>, ghost parent: bool) returns (s: StepResult)
      requires Valid() && AllLinked(n0) && SameFiles(b0, n0, fs.blocks, fs.inode)
      requires ip < |entries| && entries[ip].ref > 0 && OneMore(es0, entries, entries[ip].inum)
      requires names != [] && Cut(nm) == Cut(names[0]) && (last <==> parent && |names| == 1)
      modifies this`entries, fs
      ensures Valid() && SameFiles(b0, n0, fs.blocks, fs.inode)
      ensures StepDone(s, Walk(b0, n0, old(entries)[ip].inum, names, parent), es0, entries, last,
                       FS.Full(fs.sb, fs.blocks))
      ensures s.Next? && s.e < |entries| ==>
        Walk(b0, n0, old(entries)[ip].inum, names, parent) == Walk(b0, n0, entries[s.e].inum, names[1..], parent)
    {
      hide FS.Consistent, Contents, Unique, Read, OnlyRead, List, First, AllLinked, FS.Full, SameFiles, OneMore,
           SameRefs, Walk;
      ghost var i, es1 := entries[ip].inum, entries;
      SameSizes(b0, n0, fs.blocks, fs.inode);
      var ok := Ilock(ip);
      ReadLocked(es1, entries, fs.inode, ip, ok);
      RefsSame(es0, es1, entries, i);
      WalkHere(b0, n0, fs.blocks, fs.inode, i, names, parent);
      if !ok {
        return Stop(Panicked);
      }
      if fs.inode[entries[ip].inum].kind != T_DIR {
        ghost var es2 := entries;
        PutLinked(ip, b0, n0);
        RefsBack(es0, es2, entries, i);
        return Stop(None);
      }
      if last {
        return Stop(Got(ip));
      }
      ghost var b1, n1 := fs.blocks, fs.inode;
      var found := Dirlookup(fs, entries[ip].inum, nm);
      ReadSame(b0, n0, b1, n1, fs.blocks, fs.inode, i);
      SameSizes(b0, n0, fs.blocks, fs.inode);
      OnlyReadContents(b1, n1, fs.blocks, fs.inode, i);
      ReadKinds(entries, n1, fs.inode);
      match found
      case Panic => return Stop(Panicked);
      case NoSpace => return Stop(Panicked);
      case Missing =>
        ghost var es2 := entries;
        PutLinked(ip, b0, n0);
        RefsBack(es0, es2, entries, i);
        return Stop(None);
      case Found(off, inum) =>
        s := Descend(ip, inum, b0, n0, es0);
    }

    /** The end of the round: a reference to the inode found, and the one to the directory given back. */
    method Descend(ip: nat, inum: nat, ghost b0: Image, ghost n0: seq<Inode>,
                   ghost es0: seq<Entry>) returns (s: StepResult)
      requires Valid() && AllLinked(n0) && SameFiles(b0, n0, fs.blocks, fs.inode)
      requires ip < |entries| && entries[ip].ref > 0 && OneMore(es0, entries, entries[ip].inum)
      modifies this`entries, fs
      ensures Valid() && SameFiles(b0, n0, fs.blocks, fs.inode)
      ensures s.Next? ==> s.e < |entries| && Caches(entries[s.e], inum) && OneMore(es0, entries, inum)
      ensures !s.Next? ==> s == Stop(Panicked) && NoneFree(entries)
    {
      hide FS.Consistent, Contents, Unique, Read, AllLinked, SameFiles, OneMore;
      ghost var es1 := entries;
      var ok, e := Iget(inum);
      if !ok {
        return Stop(Panicked);
      }
      ReadGot(es1, entries, fs.inode, e);
      ghost var es2 := entries;
      assert entries[ip].inum == es1[ip].inum && entries[ip].ref > 0;
      PutLinked(ip, b0, n0);
      RefsMove(es0, es1, es2, entries, es1[ip].inum, inum);
      return Next(e);
    }

    /** namex: path lookup from the root or from the current directory, whose entry is cwd. On success it holds exactly
        one more reference than before, to the inode that the fold over the path's names leads to; when the path leads
        nowhere, it holds none. */
    method Namex(path: seq<Byte>, cwd: nat, parent: bool, name: array<Byte>) returns (res: Lookup)
      requires Valid() && IsString(path) && name.Length == DIRSIZ && cwd < |entries| && entries[cwd].ref > 0
             && AllLinked(fs.inode)
      modifies this`entries, fs, name
      ensures Valid() && SameFiles(old(fs.blocks), old(fs.inode), fs.blocks, fs.inode)
      ensures path != [] && path[0] == 47 ==>
        WalkDone(res, Walk(old(fs.blocks), old(fs.inode), ROOTINO, Names(path), parent), old(entries), entries,
                 FS.Full(fs.sb, fs.blocks))
      ensures path == [] || path[0] != 47 ==>
        WalkDone(res, Walk(old(fs.blocks), old(fs.inode), old(entries)[cwd].inum, Names(path), parent), old(entries),
                 entries, FS.Full(fs.sb, fs.blocks))
      ensures res.Got? && parent ==> Names(path) != [] && Cut(name[..]) == Cut(Names(path)[|Names(path)|-1])
    {
      hide FS.Consistent, Contents, Unique, Read, AllLinked, FS.Full, SameFiles, Names, OneMore, SameRefs, Walk,
           IsString;
      ghost var b0, n0, es0 := fs.blocks, fs.inode, entries;
      ghost var start := if path != [] && path[0] == 47 then ROOTINO else entries[cwd].inum;
      SameStart(b0, n0);
      var ip: nat, ok := cwd, true;
      if path != [] && path[0] == SLASH {
        ok, ip := Iget(ROOTINO);
        if !ok {
          return Panicked;
        }
      } else {
        Idup(cwd);
      }
      ReadGot(es0, entries, fs.inode, ip);
      var p: nat := 0;
      assert path[0..] == path;
      var found, next := Skipelem(path, p, name);
      while found
        invariant Valid() && SameFiles(b0, n0, fs.blocks, fs.inode) && ip < |entries| && entries[ip].ref > 0
        invariant OneMore(es0, entries, entries[ip].inum) && p <= next <= |path| && SameLast(path, p)
        invariant Walk(b0, n0, start, Names(path), parent) == Walk(b0, n0, entries[ip].inum, Names(path[p..]), parent)
        invariant Element(path, p, found, next, name[..])
        decreases |path| - p
      {
        LastElement(path, p, next, name[..]);
        var step := Step(ip, parent && next == |path|, name[..], b0, n0, es0, Names(path[p..]), parent);
        if step.Stop? {
          return step.res;
        }
        ip, p := step.e, next;
        found, next := Skipelem(path, p, name);
      }
      WalkEnd(b0, n0, entries[ip].inum, parent);
      if parent {
        ghost var es1 := entries;
        PutLinked(ip, b0, n0);
        RefsBack(es0, es1, entries, es1[ip].inum);
        return None;
      }
      return Got(ip);
    }
  }
}
