/** Transactions of the file system over the redo log: what a crash can leave of the files. */
module Durability {
  import opened Bytes
  import opened BlockMap
  import opened Params
  import opened Redo
  import opened Sets
  import FS = FileSystem
  import G = GroupCommit
  import H = Holes
  import IC = InodeCache
  import L = Log
  import C = Creation
  import D = Directory
  import DE = Dirents
  import DI = DiskInodes
  import M = Mkfs

  /** The file system as the buffers show it. */
  datatype Files = Files(blocks: Image, inode: seq<Inode>, owner: map<nat, Slot>)

  /** The kernel's invariants hold, and every inode is written through. */
  ghost predicate Sound(sb: FS.Super, reserved: set<nat>, f: Files)
  {
    FS.Consistent(sb, reserved, f.blocks, f.inode, f.owner) && FS.Synced(sb, f.blocks, f.inode)
  }

  /** Disk d holds files f: these inodes, these bytes in every file, and a bitmap of exactly the blocks in use. */
  ghost predicate Shows(sb: FS.Super, reserved: set<nat>, d: Image, f: Files)
  {
    Sound(sb, reserved, f.(blocks := d)) && SameBytes(f.blocks, f.inode, d, f.inode)
  }

  /** The log is where no file, inode or bitmap block is. */
  ghost predicate LogApart(a: Area, sb: FS.Super, reserved: set<nat>)
  {
    forall b :: a.start <= b < a.start + a.size ==>
      b in reserved && !(sb.inodestart <= b < sb.bmapstart + FS.BitmapBlocks(sb.size))
  }

  /** The disk has what the buffers show, except in the log and in free blocks. */
  ghost predicate Coherent(a: Area, reserved: set<nat>, d: Image, f: Files)
  {
    && |d| == |f.blocks|
    && forall b :: 0 <= b < |d| && !a.Inside(b) && (b in f.owner || b in reserved) ==> d[b] == f.blocks[b]
  }

  ghost predicate EmptyLog(a: Area, d: Image)
  {
    GoodHeader(a, d) && HeaderCount(d[a.start]) == 0
  }

  /** hdr names each of the logged blocks once. */
  ghost predicate Lists(hdr: seq<Word>, logged: set<nat>)
  {
    Distinct(hdr) && L.Elements(hdr) == logged
  }

  lemma CoherentShows(a: Area, sb: FS.Super, reserved: set<nat>, d: Image, f: Files)
    requires LogApart(a, sb, reserved) && Sound(sb, reserved, f) && Coherent(a, reserved, d, f)
    ensures Shows(sb, reserved, d, f)
  {
    hide Owned, FS.Marked, DI.DecodeInode;
    forall b | sb.inodestart <= b < sb.bmapstart + FS.BitmapBlocks(sb.size)
      ensures d[b] == f.blocks[b]
    {
      assert b in reserved;
      assert !a.Inside(b);
    }
    FS.SameMarks(sb, f.blocks, d, reserved, f.owner.Keys + reserved);
    FreeIrrelevant(f.blocks, d, f.inode, f.owner);
    hide SameBytes;
  }

  /** From the files before to the files after a transaction that gave these blocks to log_write. */
  ghost predicate Transaction(sb: FS.Super, reserved: set<nat>, f: Files, f': Files, logged: set<nat>)
  {
    && Sound(sb, reserved, f) && Sound(sb, reserved, f')
    && FS.Carried(reserved, f.blocks, f.owner, f'.blocks, f'.owner, logged) && FS.Home(sb, reserved, logged)
  }

  /** A list of the logged blocks is a log header, if the log area has a slot for each. */
  lemma ListFits(a: Area, sb: FS.Super, reserved: set<nat>, n: nat, hdr: seq<Word>, logged: set<nat>)
    requires LogApart(a, sb, reserved) && FS.Home(sb, reserved, logged) && Lists(hdr, logged)
    requires a.start + a.size <= n == sb.size && |logged| <= LOGSIZE && |logged| + 1 <= a.size
    ensures GoodEntries(a, n, hdr)
  {
    L.ElementsSize(hdr);
    forall t | 0 <= t < |hdr|
      ensures hdr[t] < n && !a.Inside(hdr[t])
    {
      var b: nat := hdr[t];
      assert b in L.Elements(hdr);
    }
  }

  /** However the blocks are listed, the list is a log header. */
  ghost predicate EveryListFits(a: Area, n: nat, logged: set<nat>)
  {
    forall hdr | Lists(hdr, logged) :: GoodEntries(a, n, hdr)
  }

  lemma FewFit(a: Area, sb: FS.Super, reserved: set<nat>, f: Files, f': Files, logged: set<nat>)
    requires LogApart(a, sb, reserved) && a.start + a.size <= |f.blocks| && Transaction(sb, reserved, f, f', logged)
    requires |logged| <= LOGSIZE && |logged| + 1 <= a.size
    ensures EveryListFits(a, |f.blocks|, logged)
  {
    hide Owned, FS.Marked, FS.Synced, LogApart, Lists, GoodEntries, FS.Home;
    forall hdr | Lists(hdr, logged)
      ensures GoodEntries(a, |f.blocks|, hdr)
    {
      ListFits(a, sb, reserved, |f.blocks|, hdr, logged);
    }
  }

  /** If the home blocks come to be what the transaction wrote, the disk has what the buffers show after it. */
  lemma WrittenCoherent(a: Area, reserved: set<nat>, d: Image, f: Files, f': Files, logged: set<nat>, hdr: seq<Word>,
                        r: Image)
    requires FS.Carried(reserved, f.blocks, f.owner, f'.blocks, f'.owner, logged) && Coherent(a, reserved, d, f)
    requires Lists(hdr, logged) && SameHome(a, r, Written(d, f'.blocks, hdr))
    ensures Coherent(a, reserved, r, f')
  {
    forall b | 0 <= b < |r| && !a.Inside(b) && (b in f'.owner || b in reserved)
      ensures r[b] == f'.blocks[b]
    {
      assert r[b] == Written(d, f'.blocks, hdr)[b];
      if b !in hdr {
        assert b !in logged;
      }
    }
  }

  lemma HomeCoherent(a: Area, reserved: set<nat>, d: Image, r: Image, f: Files)
    requires Coherent(a, reserved, d, f) && SameHome(a, r, d)
    ensures Coherent(a, reserved, r, f)
  {
  }

  /** The disk when a commit of the transaction has written k blocks. */
  ghost function During(a: Area, d: Image, blocks: Image, hdr: seq<Word>, k: nat): (e: Image)
    requires |blocks| == |d| && GoodEntries(a, |d|, hdr) && k <= 2 * |hdr| + 2
    ensures |e| == |d|
  {
    CommitImage(a, d, Written(d, blocks, hdr), hdr, k)
  }

  /** A crash after any number of the commit's writes: recovery brings back all files as they were before the
      transaction, or all files as they are after it; once the commit is over the next one can start. */
  lemma TransactionCrashAtomic(a: Area, sb: FS.Super, reserved: set<nat>, d: Image, f: Files, f': Files,
                               logged: set<nat>, hdr: seq<Word>, k: nat)
    requires LogApart(a, sb, reserved) && EmptyLog(a, d) && Coherent(a, reserved, d, f)
           && Transaction(sb, reserved, f, f', logged)
    requires Lists(hdr, logged) && GoodEntries(a, |d|, hdr) && k <= 2 * |hdr| + 2
    ensures CrashLeaves(a, sb, reserved, During(a, d, f'.blocks, hdr, k), if k <= |hdr| then f else f')
    ensures k == 2 * |hdr| + 2 ==>
        EmptyLog(a, During(a, d, f'.blocks, hdr, k)) && Coherent(a, reserved, During(a, d, f'.blocks, hdr, k), f')
  {
    hide CommitImage, Recovered, GoodHeader, GoodEntries, ReadyToCommit, Written;
    var v, e := Written(d, f'.blocks, hdr), During(a, d, f'.blocks, hdr, k);
    WrittenReady(a, d, f'.blocks, hdr);
    CommitCrashAtomic(a, d, v, hdr, k);
    hide Sound, FS.Carried, FS.Home, Coherent, LogApart, Lists, SameHome;
    if k <= |hdr| {
      HomeCoherent(a, reserved, d, Recovered(a, e), f);
    } else {
      WrittenCoherent(a, reserved, d, f, f', logged, hdr, Recovered(a, e));
    }
    if k == 2 * |hdr| + 2 {
      WrittenCoherent(a, reserved, d, f, f', logged, hdr, e);
    }
    TransactionSound(sb, reserved, f, f', logged);
    CoherentShows(a, sb, reserved, Recovered(a, e), if k <= |hdr| then f else f');
  }

  lemma TransactionSound(sb: FS.Super, reserved: set<nat>, f: Files, f': Files, logged: set<nat>)
    requires Transaction(sb, reserved, f, f', logged)
    ensures Sound(sb, reserved, f) && Sound(sb, reserved, f') && |f.blocks| == |f'.blocks|
  {
  }

  /** Operations that share a commit make one transaction, in which a block freed by one and reused by another may
      occur. */
  lemma GroupIsTransaction(sb: FS.Super, reserved: set<nat>, f: Files, f': Files, f'': Files, l: set<nat>, l': set<nat>)
    requires Transaction(sb, reserved, f, f', l) && Transaction(sb, reserved, f', f'', l')
    ensures Transaction(sb, reserved, f, f'', l + l')
  {
    hide Sound;
  }

  /** Recovery of disk e brings back files f. */
  ghost predicate CrashLeaves(a: Area, sb: FS.Super, reserved: set<nat>, e: Image, f: Files)
  {
    GoodHeader(a, e) && Coherent(a, reserved, Recovered(a, e), f) && Shows(sb, reserved, Recovered(a, e), f)
  }

  /** Recovery may itself be cut off after any of its writes: what it started from is still brought back. */
  lemma RecoveryLeaves(a: Area, sb: FS.Super, reserved: set<nat>, e: Image, f: Files, j: nat)
    requires LogApart(a, sb, reserved) && Sound(sb, reserved, f) && CrashLeaves(a, sb, reserved, e, f)
    requires j <= HeaderCount(e[a.start]) + 1
    ensures CrashLeaves(a, sb, reserved, RecoveryImage(a, e, HeaderBlocks(e[a.start]), j), f)
  {
    hide HeaderBlocks, HeaderCount, Recovered, RecoveryImage, Coherent, LogApart, Sound, SameHome, Distinct;
    RecoveryCrashAtomic(a, e, j);
    var e' := RecoveryImage(a, e, HeaderBlocks(e[a.start]), j);
    hide GoodHeader, GoodEntries;
    HomeCoherent(a, reserved, Recovered(a, e), Recovered(a, e'), f);
    CoherentShows(a, sb, reserved, Recovered(a, e'), f);
  }

  // ---------- Runs of transactions ----------

  /** A committed transaction: the files after it, what it logged, and the header its commit wrote. */
  datatype Txn = Txn(after: Files, logged: set<nat>, hdr: seq<Word>)

  ghost function Final(f0: Files, run: seq<Txn>): Files
  {
    if run == [] then f0 else run[|run|-1].after
  }

  ghost predicate Transactions(a: Area, sb: FS.Super, reserved: set<nat>, f0: Files, run: seq<Txn>)
  {
    run != [] ==>
      var before, t := run[..|run|-1], run[|run|-1];
      && Transactions(a, sb, reserved, f0, before)
      && Transaction(sb, reserved, Final(f0, before), t.after, t.logged)
      && Lists(t.hdr, t.logged) && GoodEntries(a, |f0.blocks|, t.hdr) && |t.after.blocks| == |f0.blocks|
  }

  /** The disk once all of them are committed. */
  ghost function DiskAfter(a: Area, sb: FS.Super, reserved: set<nat>, d: Image, f0: Files, run: seq<Txn>): (e: Image)
    requires Transactions(a, sb, reserved, f0, run) && |d| == |f0.blocks|
    ensures |e| == |d|
  {
    if run == [] then d
    else
      var t := run[|run|-1];
      During(a, DiskAfter(a, sb, reserved, d, f0, run[..|run|-1]), t.after.blocks, t.hdr, 2 * |t.hdr| + 2)
  }

  lemma {:induction false} RunCoherent(a: Area, sb: FS.Super, reserved: set<nat>, d: Image, f0: Files, run: seq<Txn>)
    requires LogApart(a, sb, reserved) && EmptyLog(a, d) && Coherent(a, reserved, d, f0)
           && Transactions(a, sb, reserved, f0, run)
    ensures var e := DiskAfter(a, sb, reserved, d, f0, run); EmptyLog(a, e) && Coherent(a, reserved, e, Final(f0, run))
  {
    hide EmptyLog, LogApart, Lists, GoodEntries, Transaction, During, CrashLeaves;
    if run != [] {
      var before, t := run[..|run|-1], run[|run|-1];
      RunCoherent(a, sb, reserved, d, f0, before);
      hide Coherent;
      TransactionCrashAtomic(a, sb, reserved, DiskAfter(a, sb, reserved, d, f0, before), Final(f0, before), t.after,
                             t.logged, t.hdr,
                             2 * |t.hdr| + 2);
    }
  }

  /** After any run of committed transactions, a crash after any number k of the writes of the next commit, and then any
      number of crashes within recovery: all files are as they were before that transaction, or as they are after it. */
  lemma RunCrashAtomic(a: Area, sb: FS.Super, reserved: set<nat>, d: Image, f0: Files, run: seq<Txn>, k: nat, j: nat)
    requires LogApart(a, sb, reserved) && EmptyLog(a, d) && Coherent(a, reserved, d, f0)
    requires run != [] && Transactions(a, sb, reserved, f0, run) && k <= 2 * |run[|run|-1].hdr| + 2
    ensures var before, t := run[..|run|-1], run[|run|-1];
      var e := During(a, DiskAfter(a, sb, reserved, d, f0, before), t.after.blocks, t.hdr, k);
      var left := Final(f0, if k <= |t.hdr| then before else run);
      && CrashLeaves(a, sb, reserved, e, left)
      && (j <= HeaderCount(e[a.start]) + 1 ==>
          CrashLeaves(a, sb, reserved, RecoveryImage(a, e, HeaderBlocks(e[a.start]), j), left))
  {
    hide Lists, GoodEntries, Transaction, During, DiskAfter, Sound, LogApart;
    var before, t := run[..|run|-1], run[|run|-1];
    RunCoherent(a, sb, reserved, d, f0, before);
    TransactionSound(sb, reserved, Final(f0, before), t.after, t.logged);
    TransactionCrashAtomic(a, sb, reserved, DiskAfter(a, sb, reserved, d, f0, before), Final(f0, before), t.after,
                           t.logged, t.hdr, k);
    var e := During(a, DiskAfter(a, sb, reserved, d, f0, before), t.after.blocks, t.hdr, k);
    if j <= HeaderCount(e[a.start]) + 1 {
      RecoveryLeaves(a, sb, reserved, e, Final(f0, if k <= |t.hdr| then before else run), j);
    }
  }

  // ---------- What the transactions of the system calls are ----------

  ghost function Now(fs: FS.FileSystem): Files
    reads fs
  {
    Files(fs.blocks, fs.inode, fs.owner)
  }

  /** However its blocks are listed, a crash during the commit leaves the files before or the files after. */
  ghost predicate AllOrNothing(a: Area, sb: FS.Super, reserved: set<nat>, d: Image, f: Files, f': Files,
                               logged: set<nat>)
    requires |d| == |f'.blocks|
  {
    forall hdr, k | Lists(hdr, logged) && GoodEntries(a, |d|, hdr) && 0 <= k <= 2 * |hdr| + 2 ::
      CrashLeaves(a, sb, reserved, During(a, d, f'.blocks, hdr, k), if k <= |hdr| then f else f')
  }

  lemma TransactionAllOrNothing(a: Area, sb: FS.Super, reserved: set<nat>, d: Image, f: Files, f': Files,
                                logged: set<nat>)
    requires LogApart(a, sb, reserved) && EmptyLog(a, d) && Coherent(a, reserved, d, f)
           && Transaction(sb, reserved, f, f', logged)
    ensures |d| == |f'.blocks| && AllOrNothing(a, sb, reserved, d, f, f', logged)
  {
    hide LogApart, EmptyLog, Lists, GoodEntries, CrashLeaves, During, Sound;
    forall hdr, k | Lists(hdr, logged) && GoodEntries(a, |d|, hdr) && 0 <= k <= 2 * |hdr| + 2
      ensures CrashLeaves(a, sb, reserved, During(a, d, f'.blocks, hdr, k), if k <= |hdr| then f else f')
    {
      TransactionCrashAtomic(a, sb, reserved, d, f, f', logged, hdr, k);
    }
  }

  /** One round of filewrite, begin_op to end_op: whenever the machine stops, the file has its old bytes or the spliced
      ones, and every other file the bytes it had. Exactly a write that fills a hole in the inode itself without making
      the file larger is no transaction in this sense: nothing writes that inode to the disk. */
  method WriteTransaction(fs: FS.FileSystem, i: nat, off: nat, part: seq<Byte>, ghost a: Area,
                          ghost d: Image) returns (res: FS.IoResult)
    requires fs.Valid() && i < |fs.inode| && off < FS.SIZE_T && 0 < |part| <= FS.CHUNK
    requires LogApart(a, fs.sb, fs.reserved) && EmptyLog(a, d) && Coherent(a, fs.reserved, d, Now(fs))
    modifies fs
    ensures fs.Valid() && |fs.inode| == |old(fs.inode)| && |d| == |fs.blocks|
    ensures res.Done? ==> off <= |old(Contents(fs.blocks, fs.inode, i))|
    ensures res.Done? ==>
        Contents(fs.blocks, fs.inode, i) == FS.Splice(old(Contents(fs.blocks, fs.inode, i)), off, part)
    ensures res.Done? ==> FS.OthersKept(old(fs.blocks), old(fs.inode), fs.blocks, fs.inode, i)
    ensures res.Done? ==>
      (Transaction(fs.sb, fs.reserved, old(Now(fs)), Now(fs), fs.logged)
       <==> old(FS.Synced(fs.sb, fs.blocks, fs.inode))
              && (off + |part| > old(fs.inode)[i].size || old(FS.OwnThere(fs.inode, i, off, off + |part|))))
    ensures res.Done? && Transaction(fs.sb, fs.reserved, old(Now(fs)), Now(fs), fs.logged) ==>
      AllOrNothing(a, fs.sb, fs.reserved, d, old(Now(fs)), Now(fs), fs.logged)
    ensures res.Done? && fs.sb.size <= FS.Bitmap.BPB ==>
      |fs.logged| == old(FS.WriteSize(fs.blocks, fs.inode, i, off, |part|)) <= 17
    ensures res.Done? && Transaction(fs.sb, fs.reserved, old(Now(fs)), Now(fs), fs.logged) ==>
      (|fs.logged| <= LOGSIZE && |fs.logged| < a.size ==> EveryListFits(a, |d|, fs.logged))
  {
    hide FS.Consistent, FS.Synced, Dense, FS.Home, LogApart, FS.OthersKept, AllOrNothing, Lists, GoodEntries,
         FS.Splice, FS.Full, ByteAt, FS.OwnThere, FS.WriteSize, EveryListFits;
    ghost var f := Now(fs);
    res := fs.WriteChunk(i, off, part);
    if res.Done? {
      if Transaction(fs.sb, fs.reserved, f, Now(fs), fs.logged) {
        TransactionAllOrNothing(a, fs.sb, fs.reserved, d, f, Now(fs), fs.logged);
        if |fs.logged| <= LOGSIZE && |fs.logged| < a.size {
          FewFit(a, fs.sb, fs.reserved, f, Now(fs), fs.logged);
        }
      }
    }
  }

  /** What iput does with the last reference to a file without links, as a transaction: a crash leaves the file whole,
      or gone with all its blocks free, although itrunc clears the indirect block without logging it. */
  method RemoveTransaction(ic: IC.InodeCache, i: nat, ghost a: Area, ghost d: Image)
    requires ic.fs.Valid() && i < |ic.fs.inode| && ic.fs.logged == {} && FS.Synced(ic.fs.sb, ic.fs.blocks, ic.fs.inode)
    requires LogApart(a, ic.fs.sb, ic.fs.reserved) && EmptyLog(a, d) && Coherent(a, ic.fs.reserved, d, Now(ic.fs))
    modifies ic.fs
    ensures ic.fs.Valid() && i < |ic.fs.inode| && ic.fs.inode[i].kind == 0 && |d| == |ic.fs.blocks|
    ensures ic.fs.owner == old(ic.fs.owner) - FS.FileSystem.OfInode(old(ic.fs.owner), i)
    ensures FS.OthersKept(old(ic.fs.blocks), old(ic.fs.inode), ic.fs.blocks, ic.fs.inode, i)
    ensures Transaction(ic.fs.sb, ic.fs.reserved, old(Now(ic.fs)), Now(ic.fs), ic.fs.logged)
    ensures AllOrNothing(a, ic.fs.sb, ic.fs.reserved, d, old(Now(ic.fs)), Now(ic.fs), ic.fs.logged)
    ensures ic.fs.sb.size <= FS.Bitmap.BPB ==>
      |ic.fs.logged| <= 2 < MAXOPBLOCKS && (a.size >= 3 ==> EveryListFits(a, |d|, ic.fs.logged))
  {
    hide FS.Synced, LogApart, FS.OthersKept, AllOrNothing, FS.Marked, Owned, FS.DInode, FS.StoredOthers, GoodEntries,
         FS.BitmapOnly, FS.Home;
    ghost var f := Now(ic.fs);
    ic.FreeInode(i);
    FS.FileSystem.SyncedAfter(ic.fs.sb, ic.fs.reserved, f.blocks, f.inode, ic.fs.blocks, ic.fs.inode, i);
    RemovedHome(ic.fs.sb, ic.fs.reserved, f.blocks, ic.fs.logged, i);
    TransactionAllOrNothing(a, ic.fs.sb, ic.fs.reserved, d, f, Now(ic.fs), ic.fs.logged);
    if ic.fs.sb.size <= FS.Bitmap.BPB {
      TwoBlocks(ic.fs.sb, ic.fs.logged, i);
      if a.size >= 3 {
        FewFit(a, ic.fs.sb, ic.fs.reserved, f, Now(ic.fs), ic.fs.logged);
      }
    }
  }

  /** The bitmap and the inode. */
  lemma TwoBlocks(sb: FS.Super, logged: set<nat>, i: nat)
    requires sb.size <= FS.Bitmap.BPB && FS.BitmapOnly(sb, {} + {sb.inodestart + i / DI.IPB}, logged)
    ensures |logged| <= 2
  {
    assert FS.BitmapBlocks(sb.size) <= 1;
    SubsetSize(logged, {sb.bmapstart, sb.inodestart + i / DI.IPB});
  }

  lemma RemovedHome(sb: FS.Super, reserved: set<nat>, b: Image, logged: set<nat>, i: nat)
    requires FS.Layout(sb, reserved, b) && i < sb.ninodes
           && FS.BitmapOnly(sb, {} + {sb.inodestart + i / DI.IPB}, logged)
    ensures FS.Home(sb, reserved, logged)
  {
  }

  /** The inodes as a reboot finds them. */
  ghost function Rebooted(sb: FS.Super, d: Image): (n: seq<Inode>)
    requires sb.inodestart + FS.InodeBlocks(sb.ninodes) <= |d|
    ensures |n| == sb.ninodes
  {
    seq(sb.ninodes, i requires 0 <= i < sb.ninodes => FS.DInode(sb, d, i))
  }

  /** The next name that is linked goes to a block that the inode of the directory has no address for. */
  ghost predicate InHole(b: Image, n: seq<Inode>, dp: nat)
    requires dp < |n|
  {
    var es := D.List(b, n, dp);
    DE.FirstFree(es, 0) < |es| && FS.OwnAddr(n, dp, D.FreeBlock(es)) == 0
  }

  /** A reboot from any disk that has what the buffers show after the commit finds inodes n, and through them the
      entries that directory dp had before. */
  ghost predicate NotThere(a: Area, sb: FS.Super, reserved: set<nat>, f: Files, f': Files, dp: nat, n: seq<Inode>)
  {
    && dp < sb.ninodes == |f.inode| == |n| && sb.inodestart + FS.InodeBlocks(sb.ninodes) <= |f'.blocks|
    && forall r :: Coherent(a, reserved, r, f') ==>
        Rebooted(sb, r) == n && D.List(r, n, dp) == D.List(f.blocks, f.inode, dp)
  }

  /** The disk once such a commit is complete is one of them. */
  lemma CommittedCoherent(a: Area, reserved: set<nat>, d: Image, f: Files, f': Files, logged: set<nat>, hdr: seq<Word>)
    requires EmptyLog(a, d) && Coherent(a, reserved, d, f) && Lists(hdr, logged) && GoodEntries(a, |d|, hdr)
    requires FS.Carried(reserved, f.blocks, f.owner, f'.blocks, f'.owner, logged)
    ensures |f'.blocks| == |d| && Coherent(a, reserved, During(a, d, f'.blocks, hdr, 2 * |hdr| + 2), f')
  {
    hide CommitImage, Recovered, GoodHeader, GoodEntries, ReadyToCommit, Written;
    assert |f'.blocks| == |d|;
    WrittenReady(a, d, f'.blocks, hdr);
    CommitCrashAtomic(a, d, Written(d, f'.blocks, hdr), hdr, 2 * |hdr| + 2);
    hide FS.Carried, Coherent, Lists, SameHome;
    WrittenCoherent(a, reserved, d, f, f', logged, hdr, During(a, d, f'.blocks, hdr, 2 * |hdr| + 2));
  }

  /** dirlink as a transaction: a crash leaves the directory without the name or with it. This holds exactly if no
      address is missing in the inode of the directory itself below its size. Where one is, the lookup enters a block in
      the inode in memory and nothing stores that inode; and if the new entry goes to such a block, a reboot after the
      commit finds the entries that were there before. */
  method LinkTransaction(fs: FS.FileSystem, dp: nat, name: seq<Byte>, inum: nat, ghost a: Area,
                         ghost d: Image) returns (res: D.Link)
    requires fs.Valid() && dp < |fs.inode| && fs.logged == {}
    requires LogApart(a, fs.sb, fs.reserved) && EmptyLog(a, d) && Coherent(a, fs.reserved, d, Now(fs))
    modifies fs
    ensures fs.Valid()
    ensures res.Linked? ==> dp < |fs.inode| == fs.sb.ninodes && |d| == |fs.blocks|
    ensures res.Linked? ==>
      D.List(fs.blocks, fs.inode, dp)
        == DE.Insert(old(D.List(fs.blocks, fs.inode, dp)), DE.Dirent(inum % 0x1_0000, DE.Cut(name)))
    ensures res.Linked? ==> FS.OthersKept(old(fs.blocks), old(fs.inode), fs.blocks, fs.inode, dp)
    ensures res.Linked? ==>
      (Transaction(fs.sb, fs.reserved, old(Now(fs)), Now(fs), fs.logged)
       <==> old(FS.Synced(fs.sb, fs.blocks, fs.inode)) && old(FS.OwnThere(fs.inode, dp, 0, fs.inode[dp].size)))
    ensures res.Linked? && Transaction(fs.sb, fs.reserved, old(Now(fs)), Now(fs), fs.logged) ==>
      AllOrNothing(a, fs.sb, fs.reserved, d, old(Now(fs)), Now(fs), fs.logged)
    ensures res.Linked? && fs.sb.size <= FS.Bitmap.BPB ==>
      |fs.logged| <= 4 + old(H.AllHoles(fs.blocks, fs.inode, dp))
    ensures res.Linked? && fs.sb.size <= FS.Bitmap.BPB && old(Dense(fs.blocks, fs.inode, dp)) ==>
      |fs.logged| <= 4 < MAXOPBLOCKS
    ensures res.Linked? && Transaction(fs.sb, fs.reserved, old(Now(fs)), Now(fs), fs.logged) ==>
      (|fs.logged| <= LOGSIZE && |fs.logged| < a.size ==> EveryListFits(a, |d|, fs.logged))
    ensures res.Linked? && old(FS.Synced(fs.sb, fs.blocks, fs.inode)) && old(InHole(fs.blocks, fs.inode, dp)) ==>
      NotThere(a, fs.sb, fs.reserved, old(Now(fs)), Now(fs), dp, old(fs.inode))
  {
    hide FS.Consistent, FS.Synced, Dense, FS.Home, LogApart, FS.OthersKept, AllOrNothing, D.List, DE.Insert, DE.First,
         GoodEntries, FS.WriteSet, D.FreeBlock, FS.AddrsKept, Transaction, EveryListFits, H.AllHoles, FS.OwnThere,
         D.LinkStored, D.LinkKept, NotThere, InHole, DE.FirstFree;
    ghost var f, s := Now(fs), fs.Now();
    FS.FileSystem.HomeNone(fs.sb, fs.reserved);
    res := D.Dirlink(fs, dp, name, inum);
    if res.Linked? {
      LinkedOrNot(fs.sb, fs.reserved, s, fs.Now(), dp);
      if Transaction(fs.sb, fs.reserved, f, Now(fs), fs.logged) {
        TransactionAllOrNothing(a, fs.sb, fs.reserved, d, f, Now(fs), fs.logged);
        if |fs.logged| <= LOGSIZE && |fs.logged| < a.size {
          FewFit(a, fs.sb, fs.reserved, f, Now(fs), fs.logged);
        }
      }
      if Dense(f.blocks, f.inode, dp) {
        H.NoneAtAll(f.blocks, f.inode, dp);
      }
      if FS.Synced(fs.sb, f.blocks, f.inode) && InHole(f.blocks, f.inode, dp) {
        StoredBefore(fs.sb, fs.reserved, s, fs.Now(), dp);
        NameLost(a, fs.sb, fs.reserved, f, Now(fs), dp, f.inode, DE.Dirent(inum % 0x1_0000, DE.Cut(name)));
      }
    }
  }

  lemma LinkedOrNot(sb: FS.Super, reserved: set<nat>, s: FS.Snap, t: FS.Snap, dp: nat)
    requires FS.Consistent(sb, reserved, s.blocks, s.inode, s.owner)
           && FS.Consistent(sb, reserved, t.blocks, t.inode, t.owner)
    requires dp < |s.inode| == |t.inode| && s.inode[dp].size % DE.DESIZE == 0
    requires FS.OthersKept(s.blocks, s.inode, t.blocks, t.inode, dp) && D.LinkKept(sb, reserved, s, t, dp)
    requires var es := D.List(s.blocks, s.inode, dp); D.LinkStored(sb, s, t, dp, DE.FirstFree(es, 0) == |es|)
    requires FS.Home(sb, reserved, s.logged)
    ensures Transaction(sb, reserved, Files(s.blocks, s.inode, s.owner), Files(t.blocks, t.inode, t.owner), t.logged)
       <==> FS.Synced(sb, s.blocks, s.inode) && FS.OwnThere(s.inode, dp, 0, s.inode[dp].size)
    ensures |t.blocks| == |s.blocks| && |s.inode| == sb.ninodes
  {
    hide FS.Consistent, FS.Synced, FS.OthersKept, D.List, DE.FirstFree, FS.Home, FS.OwnThere, FS.Carried, FS.DInode,
         FS.DenseKept, Dense;
    if FS.Synced(sb, s.blocks, s.inode) {
      D.LinkSynced(sb, s, t, dp);
    }
  }

  lemma StoredBefore(sb: FS.Super, reserved: set<nat>, s: FS.Snap, t: FS.Snap, dp: nat)
    requires FS.Synced(sb, s.blocks, s.inode) && dp < |s.inode| == |t.inode| && InHole(s.blocks, s.inode, dp)
    requires var es := D.List(s.blocks, s.inode, dp); D.LinkStored(sb, s, t, dp, DE.FirstFree(es, 0) == |es|)
    requires D.LinkKept(sb, reserved, s, t, dp)
    ensures FS.Synced(sb, t.blocks, s.inode) && FS.AddrsKept(s.inode[dp], t.inode[dp])
  {
    hide FS.DInode, DE.FirstFree, D.List, FS.OwnThere, FS.Carried, FS.Home, FS.DenseKept, Dense;
  }

  /** A name that goes to such a block is lost if the machine goes down before anything stores the directory's inode. */
  lemma NameLost(a: Area, sb: FS.Super, reserved: set<nat>, f: Files, f': Files, dp: nat, n: seq<Inode>, de: DE.Dirent)
    requires LogApart(a, sb, reserved) && FS.Consistent(sb, reserved, f'.blocks, f'.inode, f'.owner)
    requires FS.Synced(sb, f'.blocks, n) && dp < |f.inode| == |f'.inode| == |n| && n[dp] == f.inode[dp]
    requires InHole(f.blocks, f.inode, dp) && f.inode[dp].size % DE.DESIZE == 0
    requires FS.AddrsKept(f.inode[dp], f'.inode[dp])
    requires D.List(f'.blocks, f'.inode, dp) == DE.Insert(D.List(f.blocks, f.inode, dp), de)
    ensures NotThere(a, sb, reserved, f, f', dp, n)
  {
    forall r | Coherent(a, reserved, r, f')
      ensures Rebooted(sb, r) == n && D.List(r, n, dp) == D.List(f.blocks, f.inode, dp)
    {
      RebootFinds(a, sb, reserved, f', n, r);
      CoherentBytes(a, sb, reserved, r, f');
      hide FS.Consistent, Coherent, LogApart, Rebooted, FS.Synced, SameBytes;
      SameListed(f'.blocks, r, f'.inode, dp);
      D.LinkLost(f.blocks, f.inode, r, f'.inode, dp, de);
      SameInode(r, f.inode, n, dp);
    }
  }

  lemma SameInode(b: Image, n: seq<Inode>, n': seq<Inode>, dp: nat)
    requires dp < |n| == |n'| && n[dp] == n'[dp]
    ensures D.List(b, n', dp) == D.List(b, n, dp)
  {
    assert Contents(b, n', dp) == Contents(b, n, dp);
  }

  lemma SameListed(b: Image, r: Image, n: seq<Inode>, dp: nat)
    requires dp < |n| && SameBytes(b, n, r, n)
    ensures D.List(r, n, dp) == D.List(b, n, dp)
  {
    hide ByteAt;
    assert Contents(r, n, dp) == Contents(b, n, dp);
  }

  lemma CoherentBytes(a: Area, sb: FS.Super, reserved: set<nat>, r: Image, f: Files)
    requires FS.Consistent(sb, reserved, f.blocks, f.inode, f.owner) && LogApart(a, sb, reserved)
    requires Coherent(a, reserved, r, f)
    ensures SameBytes(f.blocks, f.inode, r, f.inode)
  {
    hide Owned, FS.Marked, SameBytes;
    FreeIrrelevant(f.blocks, r, f.inode, f.owner);
  }

  lemma RebootFinds(a: Area, sb: FS.Super, reserved: set<nat>, f: Files, n: seq<Inode>, r: Image)
    requires LogApart(a, sb, reserved) && FS.Layout(sb, reserved, f.blocks) && FS.Synced(sb, f.blocks, n)
    requires Coherent(a, reserved, r, f)
    ensures Rebooted(sb, r) == n
  {
    hide DI.DecodeInode;
    forall i | 0 <= i < sb.ninodes
      ensures FS.DInode(sb, r, i) == FS.DInode(sb, f.blocks, i)
    {
      var b := sb.inodestart + i / DI.IPB;
      assert b in reserved && !a.Inside(b);
    }
  }

  /** create as a transaction: a crash leaves neither the file nor its name, or both; no inode in use without a name, no
      name of a free inode, and of a new directory never half of its entries. For a plain file this holds exactly if no
      address is missing in the inode of the parent below its size; a new directory gives its parent a link more, and
      with that the parent's inode is stored after the lookup. */
  method CreateTransaction(fs: FS.FileSystem, dp: nat, name: seq<Byte>, kind: Half, major: Half, minor: Half,
                           ghost a: Area, ghost d: Image)
    returns (res: C.Outcome)
    requires fs.Valid() && fs.logged == {} && FS.StoredKinds(fs.sb, fs.blocks, fs.inode) && FS.FreeBlank(fs.inode)
    requires dp < |fs.inode| <= 0x1_0000 && kind != 0
    requires LogApart(a, fs.sb, fs.reserved) && EmptyLog(a, d) && Coherent(a, fs.reserved, d, Now(fs))
    modifies fs
    ensures fs.Valid() && dp < |fs.inode|
    ensures res.Created? ==> |fs.inode| == |old(fs.inode)| && |d| == |fs.blocks| && FS.FreeBlank(fs.inode)
    ensures res.Created? ==>
      C.Made(old(fs.blocks), old(fs.inode), fs.blocks, fs.inode, dp, name, kind, major, minor, res.inum)
    ensures res.Created? ==>
      (Transaction(fs.sb, fs.reserved, old(Now(fs)), Now(fs), fs.logged)
       <==> old(FS.Synced(fs.sb, fs.blocks, fs.inode))
              && (kind == T_DIR || old(FS.OwnThere(fs.inode, dp, 0, fs.inode[dp].size))))
    ensures res.Created? && Transaction(fs.sb, fs.reserved, old(Now(fs)), Now(fs), fs.logged) ==>
      AllOrNothing(a, fs.sb, fs.reserved, d, old(Now(fs)), Now(fs), fs.logged)
    ensures res.Created? && kind != T_DIR && old(FS.Synced(fs.sb, fs.blocks, fs.inode))
            && old(InHole(fs.blocks, fs.inode, dp)) ==>
      NotThere(a, fs.sb, fs.reserved, old(Now(fs)), Now(fs), dp, old(fs.inode)[res.inum := fs.inode[res.inum]])
    ensures res.Created? && fs.sb.size <= FS.Bitmap.BPB ==>
      |fs.logged| <= 6 + old(H.AllHoles(fs.blocks, fs.inode, dp))
    ensures res.Created? && fs.sb.size <= FS.Bitmap.BPB && old(Dense(fs.blocks, fs.inode, dp)) ==>
      |fs.logged| <= 6 < MAXOPBLOCKS
    ensures res.Created? && Transaction(fs.sb, fs.reserved, old(Now(fs)), Now(fs), fs.logged) ==>
      (|fs.logged| <= LOGSIZE && |fs.logged| < a.size ==> EveryListFits(a, |d|, fs.logged))
  {
    hide FS.Consistent, FS.Synced, Dense, FS.Home, LogApart, AllOrNothing, D.List, C.Made, FS.FreeBlank, DE.First,
         GoodEntries, C.Impossible, FS.OwnThere, FS.DenseKept, C.KeptBut, C.StoredBut, H.AllHoles, EveryListFits,
         D.OnlyRead;
    ghost var f := Now(fs);
    FS.FileSystem.HomeNone(fs.sb, fs.reserved);
    res := C.Create(fs, dp, name, kind, major, minor);
    if res.Created? {
      if Transaction(fs.sb, fs.reserved, f, Now(fs), fs.logged) {
        TransactionAllOrNothing(a, fs.sb, fs.reserved, d, f, Now(fs), fs.logged);
        if |fs.logged| <= LOGSIZE && |fs.logged| < a.size {
          FewFit(a, fs.sb, fs.reserved, f, Now(fs), fs.logged);
        }
      }
      if Dense(f.blocks, f.inode, dp) {
        H.NoneAtAll(f.blocks, f.inode, dp);
      }
      if kind != T_DIR && FS.Synced(fs.sb, f.blocks, f.inode) && InHole(f.blocks, f.inode, dp) {
        CreatedHole(f, Now(fs), dp, name, kind, major, minor, res.inum);
        NameLost(a, fs.sb, fs.reserved, f, Now(fs), dp, f.inode[res.inum := fs.inode[res.inum]],
                 DE.Dirent(res.inum % 0x1_0000, DE.Cut(name)));
      }
    }
  }

  lemma CreatedHole(f: Files, f': Files, dp: nat, name: seq<Byte>, kind: Half, major: Half, minor: Half, inum: nat)
    requires dp < |f.inode| == |f'.inode|
    requires C.Made(f.blocks, f.inode, f'.blocks, f'.inode, dp, name, kind, major, minor, inum)
    ensures dp != inum < |f.inode|
    ensures D.List(f'.blocks, f'.inode, dp)
          == DE.Insert(D.List(f.blocks, f.inode, dp), DE.Dirent(inum % 0x1_0000, DE.Cut(name)))
  {
    hide D.List, DE.Insert, DE.Cut, C.KeptBut;
  }

  /** What mkfs builds is a disk to start from. Its log area has a slot for the seventeen blocks of a write. */
  lemma MkfsStarts(b: Image, n: seq<Inode>, o: map<nat, Slot>)
    requires FS.Consistent(M.SuperBlock(), M.Below(M.NMETA), b, n, o) && FS.Synced(M.SuperBlock(), b, n)
    requires M.LogZero(b)
    ensures var a, f := Area(2, M.NLOG), Files(b, n, o);
      && LogApart(a, M.SuperBlock(), M.Below(M.NMETA)) && EmptyLog(a, b) && Coherent(a, M.Below(M.NMETA), b, f)
      && Sound(M.SuperBlock(), M.Below(M.NMETA), f) && Roomy(a) && a.size >= 18 && M.SuperBlock().size <= FS.Bitmap.BPB
  {
    ZeroWord(0);
  }

  /** On a new image, linking a first name in the root directory is atomic unless its entries fill whole blocks: then,
      as with 30 files, that name is lost if the machine goes down before anything stores the inode of the root. */
  lemma MkfsFirstName(b: Image, n: seq<Inode>, files: seq<M.Input>)
    requires |files| + 2 <= |n| == M.NINODES && M.Mkfs.Built(b, n, files)
    ensures InHole(b, n, ROOTINO) <==> |files| % 32 == 30
    ensures FS.OwnThere(n, ROOTINO, 0, n[ROOTINO].size) <==> |files| % 32 != 30
  {
    M.Mkfs.RootFree(b, n, files);
    M.Mkfs.RootHole(b, n, files);
    hide M.Mkfs.Built, DE.FirstFree, Contents, DE.Entries, FS.OwnAddr;
    var es := D.List(b, n, ROOTINO);
    assert D.FreeBlock(es) == DE.DESIZE * (|files| + 2) / BSIZE;
  }

  // ---------- The log's code, and operations interleaved ----------

  /** The disk while the log's code commits a transaction: every image that Commit leaves behind recovers to the files
      before it or to those after it, if the cache has what the transaction put into the blocks it logged. */
  lemma CommitLeaves(log: L.Log, sb: FS.Super, reserved: set<nat>, trace: seq<Image>, d: Image, view: Image, f: Files,
                     f': Files, logged: set<nat>, hdr: seq<Word>, i: nat)
    requires LogApart(log.area, sb, reserved) && EmptyLog(log.area, d) && Coherent(log.area, reserved, d, f)
    requires Transaction(sb, reserved, f, f', logged) && Lists(hdr, logged) && |view| == |d|
    requires log.Committed(trace, d, Written(d, view, hdr), hdr) && |trace| <= i < |log.cache.disk.trace|
    requires forall t :: 0 <= t < |hdr| ==> view[hdr[t]] == f'.blocks[hdr[t]]
    ensures CrashLeaves(log.area, sb, reserved, log.cache.disk.trace[i], if i - |trace| < |hdr| then f else f')
  {
    hide LogApart, EmptyLog, Transaction, Lists, CrashLeaves, Sound, CommitImage;
    TransactionSound(sb, reserved, f, f', logged);
    assert Written(d, view, hdr) == Written(d, f'.blocks, hdr);
    TransactionCrashAtomic(log.area, sb, reserved, d, f, f', logged, hdr, i - |trace| + 1);
  }

  /** What block b holds after the writes of h: the data of the last of them, or what it held before. */
  ghost function Last(d: Image, h: G.History, b: nat): Sector
    requires b < |d|
  {
    if h == [] then d[b]
    else if h[|h|-1].Wrote? && h[|h|-1].block == b then h[|h|-1].data
    else Last(d, h[..|h|-1], b)
  }

  lemma {:induction false} EffectIsLast(d: Image, h: G.History, b: nat)
    requires b < |d|
    ensures G.Effect(d, h)[b] == Last(d, h, b)
  {
    if h != [] {
      EffectIsLast(d, h[..|h|-1], b);
    }
  }

  /** However the log_writes of any number of operations interleave with each other, with commits, crashes and
      recoveries: if files f are what the durable operations last wrote to the blocks in use, recovery brings back f. */
  lemma InterleavedRecovers(a: Area, sb: FS.Super, reserved: set<nat>, origin: Image, run: seq<G.Machine>, i: nat,
                            f: Files)
    requires G.Run(a, origin, run) && i < |run| && LogApart(a, sb, reserved) && Sound(sb, reserved, f)
           && |f.blocks| == |origin|
    requires forall b :: 0 <= b < |origin| && !a.Inside(b) && (b in f.owner || b in reserved) ==>
               Last(origin, run[i].durable, b) == f.blocks[b]
    ensures G.WholeOperations(run[i].durable) && CrashLeaves(a, sb, reserved, run[i].disk, f)
  {
    hide G.Run, LogApart, Sound, GoodHeader, Recovered, Last, G.Effect, G.WholeOperations;
    G.RecoversWholeOperations(a, origin, run, i);
    var e := G.Effect(origin, run[i].durable);
    forall b | 0 <= b < |e|
      ensures e[b] == Last(origin, run[i].durable, b)
    {
      EffectIsLast(origin, run[i].durable, b);
    }
    HomeCoherent(a, reserved, e, Recovered(a, run[i].disk), f);
    CoherentShows(a, sb, reserved, Recovered(a, run[i].disk), f);
  }
}
