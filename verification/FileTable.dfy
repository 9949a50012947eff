/** The file table and a process's descriptors: filealloc, filedup, fileclose, fdalloc, dup and close. */
module FileTable {
  import opened InodeCache
  import FS = FileSystem

  const NFILE: nat := 100

  /** A file; isInode is type == FD_INODE, ip the cache entry of its inode. */
  datatype File = File(ref: nat, isInode: bool, ip: nat)

  /** An empty descriptor, ofile[fd] == 0. */
  const NOFD: int := -1

  /** References that are not accounted for by the descriptors of this process. */
  ghost function Others(file: seq<File>, ofile: seq<int>, g: nat): int
    requires g < |file|
  {
    file[g].ref - multiset(ofile)[g]
  }

  lemma SlotChanged(ofile: seq<int>, fd: nat, x: int)
    requires fd < |ofile|
    ensures multiset(ofile[fd := x]) == multiset(ofile)[ofile[fd] := multiset(ofile)[ofile[fd]] - 1] + multiset{x}
  {
    assert ofile == ofile[..fd] + ([ofile[fd]] + ofile[fd + 1..]);
    assert ofile[fd := x] == ofile[..fd] + ([x] + ofile[fd + 1..]);
  }

  class FileTable {
    const file: array<File>
    const cache: InodeCache

    constructor (cache: InodeCache)
      ensures this.cache == cache && fresh(file) && file.Length == NFILE && forall f :: 0 <= f < NFILE ==>
          file[f].ref == 0
    {
      this.cache := cache;
      file := new File[NFILE](_ => File(0, false, 0));
    }

    /** filealloc: the first file without references gets one. */
    method Filealloc() returns (found: bool, f: nat)
      modifies file
      ensures !found ==> file[..] == old(file[..]) && forall g :: 0 <= g < file.Length ==> file[g].ref > 0
      ensures found ==> f < file.Length && old(file[f]).ref == 0 && forall g :: 0 <= g < f ==> file[g].ref > 0
      ensures found ==> file[..] == old(file[..])[f := old(file[f]).(ref := 1)]
    {
      f := 0;
      while f < file.Length
        invariant f <= file.Length && file[..] == old(file[..]) && forall g :: 0 <= g < f ==> file[g].ref > 0
      {
        if file[f].ref == 0 {
          file[f] := file[f].(ref := 1);
          return true, f;
        }
        f := f + 1;
      }
      return false, f;
    }

    /** filedup. false is the panic. */
    method Filedup(f: nat) returns (ok: bool)
      requires f < file.Length
      modifies file
      ensures ok <==> old(file[f]).ref > 0
      ensures file[..] == if ok then old(file[..])[f := old(file[f]).(ref := old(file[f]).ref + 1)] else old(file[..])
    {
      if file[f].ref <= 0 {
        return false;
      }
      file[f] := file[f].(ref := file[f].ref + 1);
      return true;
    }

    /** fileclose. The last reference also gives back the file's reference to its inode. false is a panic: no reference
        to close, or a last one to a file that is not an inode. */
    method Fileclose(f: nat) returns (ok: bool)
      requires f < file.Length && cache.Valid()
      requires file[f].ref == 1 && file[f].isInode ==> file[f].ip < |cache.entries| && cache.entries[file[f].ip].ref > 0
      modifies file, cache`entries, cache.fs
      ensures ok <==> old(file[f]).ref > 1 || (old(file[f]).ref == 1 && old(file[f]).isInode)
      ensures forall g :: 0 <= g < file.Length && g != f ==> file[g] == old(file[g])
      ensures old(file[f]).ref > 1 ==> file[f] == old(file[f]).(ref := old(file[f]).ref - 1)
      ensures ok && old(file[f]).ref == 1 ==> file[f] == old(file[f]).(ref := 0, isInode := false)
      ensures old(file[f]).ref == 0 ==> file[f] == old(file[f])
      ensures ok && old(file[f]).ref == 1 ==>
          OneMore(cache.entries, old(cache.entries), old(cache.entries)[old(file[f]).ip].inum)
      ensures !ok || old(file[f]).ref > 1 ==> cache.entries == old(cache.entries)
      ensures cache.Valid()
    {
      hide FS.Consistent, Unique, Read, OneMore;
      if file[f].ref < 1 {
        return false;
      }
      file[f] := file[f].(ref := file[f].ref - 1);
      if file[f].ref > 0 {
        return true;
      }
      if !file[f].isInode {
        return false;
      }
      cache.Iput(file[f].ip);
      file[f] := file[f].(isInode := false);
      return true;
    }

    /** fdalloc: the first empty descriptor takes the file. */
    method Fdalloc(ofile: array<int>, f: nat) returns (ok: bool, fd: nat)
      modifies ofile
      ensures !ok ==> ofile[..] == old(ofile[..]) && forall k :: 0 <= k < ofile.Length ==> ofile[k] != NOFD
      ensures ok ==> fd < ofile.Length && old(ofile[fd]) == NOFD && forall k :: 0 <= k < fd ==> ofile[k] != NOFD
      ensures ok ==> ofile[..] == old(ofile[..])[fd := f]
    {
      fd := 0;
      while fd < ofile.Length
        invariant fd <= ofile.Length && ofile[..] == old(ofile[..]) && forall k :: 0 <= k < fd ==> ofile[k] != NOFD
      {
        if ofile[fd] == NOFD {
          ofile[fd] := f;
          return true, fd;
        }
        fd := fd + 1;
      }
      return false, fd;
    }

    /** sys_dup: a second descriptor for the same file. Every file's count goes up by as many descriptors as it gained,
        so long as files that descriptors name have references. */
    method Dup(ofile: array<int>, fd: int) returns (newfd: int)
      requires forall k :: 0 <= k < ofile.Length && ofile[k] != NOFD ==>
          0 <= ofile[k] < file.Length && file[ofile[k]].ref > 0
      modifies file, ofile
      ensures newfd == -1 <==>
        !(0 <= fd < ofile.Length) || old(ofile[fd]) == NOFD
          || (forall k :: 0 <= k < ofile.Length ==> old(ofile[k]) != NOFD)
      ensures newfd == -1 ==> file[..] == old(file[..]) && ofile[..] == old(ofile[..])
      ensures newfd != -1 ==>
          0 <= newfd < ofile.Length && old(ofile[newfd]) == NOFD && ofile[..] == old(ofile[..])[newfd := old(ofile[fd])]
      ensures forall g :: 0 <= g < file.Length ==> Others(file[..], ofile[..], g) == old(Others(file[..], ofile[..], g))
    {
      if fd < 0 || fd >= ofile.Length || ofile[fd] == NOFD {
        return -1;
      }
      var f := ofile[fd];
      var ok, new_ := Fdalloc(ofile, f);
      if !ok {
        return -1;
      }
      SlotChanged(old(ofile[..]), new_, f);
      ok := Filedup(f);
      return new_;
    }

    /** sys_close: the descriptor is cleared and its reference given back. */
    method Close(ofile: array<int>, fd: int) returns (res: int, ok: bool)
      requires cache.Valid()
      requires forall k :: 0 <= k < ofile.Length && ofile[k] != NOFD ==>
          0 <= ofile[k] < file.Length && FileOpen(file[ofile[k]], cache.entries)
      modifies file, ofile, cache`entries, cache.fs
      ensures ok && cache.Valid()
      ensures res == if 0 <= fd < ofile.Length && old(ofile[fd]) != NOFD then 0 else -1
      ensures ofile[..] == if res == 0 then old(ofile[..])[fd := NOFD] else old(ofile[..])
      ensures forall g :: 0 <= g < file.Length ==> Others(file[..], ofile[..], g) == old(Others(file[..], ofile[..], g))
    {
      hide FS.Consistent, Unique, Read, OneMore;
      if fd < 0 || fd >= ofile.Length || ofile[fd] == NOFD {
        return -1, true;
      }
      var f := ofile[fd];
      SlotChanged(ofile[..], fd, NOFD);
      ofile[fd] := NOFD;
      ok := Fileclose(f);
      return 0, ok;
    }
  }

  /** A file with a reference, to an inode with one. */
  predicate FileOpen(f: File, es: seq<Entry>)
  {
    f.ref > 0 && f.isInode && f.ip < |es| && es[f.ip].ref > 0
  }
}
