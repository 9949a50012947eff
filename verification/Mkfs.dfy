/** mkfs: building the initial image, and why the kernel's invariants hold of it. */
module Mkfs {
  import opened Bytes
  import opened Bitmap
  import opened BlockMap
  import opened FileSystem
  import opened Dirents
  import opened DiskInodes
  import opened Params

  const FSSIZE: nat := 1000
  const NINODES: nat := 200
  /** Boot block, superblock, 30 log blocks, 26 inode blocks, one bitmap block. */
  const NMETA: nat := 59
  /** Blocks for the log, its header included. */
  const NLOG: nat := LOGSIZE

  function SuperBlock(): Super
  {
    Super(FSSIZE, NINODES, 32, 58)
  }

  /** The blocks that are never handed out: everything before the data blocks. */
  ghost function Below(n: nat): (r: set<nat>)
    ensures forall b: nat :: b in r <==> b < n
  {
    if n == 0 then {} else Below(n - 1) + {n - 1}
  }

  /** A file given to mkfs. */
  datatype Input = Input(name: seq<Byte>, data: seq<Byte>)

  /** The entries of the root directory after the first n files. */
  function RootBytes(files: seq<Input>, n: nat): seq<Byte>
    requires n <= |files|
  {
    if n == 0 then Encode(ROOTINO, Dot()) + Encode(ROOTINO, DotDot())
    else RootBytes(files, n - 1) + Encode(n + 1, files[n - 1].name)
  }

  lemma {:induction false} NoBits(k: nat)
    ensures !Bit(0, k)
  {
    if k > 0 {
      NoBits(k - 1);
    }
  }

  /** Nothing is stored past the end of a file, and no block is there that lies wholly past it. */
  ghost predicate TailZero(blocks: Image, inode: seq<Inode>)
  {
    && (forall i, p :: 0 <= i < |inode| && inode[i].size <= p ==> ByteAt(blocks, inode, i, p) == 0)
    && forall i, bn :: 0 <= i < |inode| && 0 <= bn < MAXFILE && inode[i].size <= bn * BSIZE ==>
         AddrOf(blocks, inode, i, SlotOf(bn)) == 0
  }

  /** The data blocks before freeblock are those in use; those from it on are zero, and so is the log. */
  ghost predicate Filled(blocks: Image, owner: map<nat, Slot>, freeblock: nat)
  {
    && (forall b :: b in owner <==> NMETA <= b < freeblock)
    && (forall b :: freeblock <= b < |blocks| ==> blocks[b] == ZeroSector())
    && LogZero(blocks)
  }

  ghost predicate LogZero(blocks: Image)
  {
    |blocks| > 2 + NLOG && forall b :: 2 <= b < 2 + NLOG ==> blocks[b] == ZeroSector()
  }

  lemma FilledNext(blocks: Image, inode: seq<Inode>, owner: map<nat, Slot>, i: nat, k: nat, b: Word)
    requires Filled(blocks, owner, b) && NMETA <= b < |blocks| && i < |inode| && k < NSLOTS
    requires k > NDIRECT ==> inode[i].addrs[NDIRECT] in owner
    ensures b !in owner && blocks[b] == ZeroSector()
    ensures Filled(PutBlock(blocks, inode, i, k, b), owner[b := Slot(i, k)], b + 1)
    ensures InodesKept(SuperBlock(), blocks, PutBlock(blocks, inode, i, k, b))
  {
    hide PutWord;
  }

  lemma TakeKeeps(blocks: Image, inode: seq<Inode>, owner: map<nat, Slot>, i: nat, k: nat, b: Word)
    requires Owned(blocks, inode, owner) && Filled(blocks, owner, b) && NMETA <= b < |blocks|
    requires i < |inode| && k < NSLOTS && AddrOf(blocks, inode, i, k) == 0
    requires k > NDIRECT ==> inode[i].addrs[NDIRECT] != 0
    ensures k > NDIRECT ==> inode[i].addrs[NDIRECT] < |blocks|
    ensures var blocks', inode', owner' := PutBlock(blocks, inode, i, k, b), PutInode(inode, i, k, b),
                                           owner[b := Slot(i, k)];
      && Owned(blocks', inode', owner') && Filled(blocks', owner', b + 1) && AddrOf(blocks', inode', i, k) == b
      && SameBytes(blocks, inode, blocks', inode') && Extends(owner, owner', i)
        && InodesKept(SuperBlock(), blocks, blocks')
  {
    hide AddrOf, PutWord, Owned, SameBytes, Filled, InodesKept;
    DirectAddr(blocks, inode, i, NDIRECT);
    OnePlace(blocks, inode, owner, i, NDIRECT, i, NDIRECT);
    FilledNext(blocks, inode, owner, i, k, b);
    PutOnly(blocks, inode, owner, i, k, b, i, k);
    PutOwned(blocks, inode, owner, i, k, b);
    PutBytes(blocks, inode, owner, i, k, b);
  }

  /** A block before the data blocks can hold anything. */
  lemma Apart(b: Image, n: seq<Inode>, o: map<nat, Slot>, freeblock: nat, x: nat, data: Sector)
    requires Owned(b, n, o) && Filled(b, o, freeblock) && NMETA <= freeblock <= |b| && 2 + NLOG <= x < NMETA
    ensures var b' := b[x := data];
      Owned(b', n, o) && Filled(b', o, freeblock) && SameBytes(b, n, b', n) && SameAddrs(b, b', n)
  {
    var b' := b[x := data];
    FreeIrrelevant(b, b', n, o);
    assert SameMaps(b, b', o);
    hide AddrOf, Owned, SameMaps, SameBytes;
    forall i, k | 0 <= i < |n| && 0 <= k
      ensures AddrOf(b', n, i, k) == AddrOf(b, n, i, k)
    {
      SameAddr(b, b', n, o, i, k);
    }
  }

  /** What that leaves of files. */
  lemma ApartFiles(b0: Image, n0: seq<Inode>, b: Image, b': Image, n: seq<Inode>, i: nat)
    requires i < |n| && SameBytes(b, n, b', n) && SameAddrs(b, b', n) && OthersKept(b0, n0, b, n, i)
           && DenseKept(b0, n0, b, n)
    ensures OthersKept(b0, n0, b', n, i) && DenseKept(b0, n0, b', n) && (TailZero(b, n) ==> TailZero(b', n))
    ensures Contents(b', n, i) == Contents(b, n, i) && (Dense(b, n, i) ==> Dense(b', n, i))
  {
    hide AddrOf, ByteAt;
  }

  /** A zeroed inode block holds free inodes. */
  lemma ZeroInode(slot: nat)
    requires slot < IPB
    ensures DecodeInode(ZeroSector(), slot) == Blank(0, 0)
  {
    hide GetWord, FromWords;
    var ws := LoadWords(ZeroSector(), IWORDS * slot, IWORDS);
    forall j | 0 <= j < IWORDS
      ensures ws[j] == 0
    {
      ZeroWord(IWORDS * slot + j);
    }
    ZeroWords(ws);
  }

  lemma ZeroWords(ws: seq<Word>)
    requires |ws| == IWORDS && forall j :: 0 <= j < IWORDS ==> ws[j] == 0
    ensures FromWords(ws) == Blank(0, 0)
  {
    assert ws[3..] == seq(NDIRECT + 1, _ => 0);
  }

  /** The root directory and the first k files are in place; every other inode is free. */
  ghost predicate Progress(b: Image, n: seq<Inode>, files: seq<Input>, k: nat)
    requires k <= |files| && |files| + 2 <= |n|
  {
    && n[ROOTINO].kind == T_DIR && n[ROOTINO].nlink == 1
    && Contents(b, n, ROOTINO) == RootBytes(files, k) && Dense(b, n, ROOTINO)
    && (forall j :: 0 <= j < k ==> HoldsFile(b, n, 2 + j, files[j].data))
    && (forall j :: 0 <= j < |n| && j != ROOTINO && !(2 <= j < 2 + k) ==> n[j] == Blank(0, 0))
  }

  ghost predicate HoldsFile(b: Image, n: seq<Inode>, i: nat, data: seq<Byte>)
    requires i < |n|
  {
    n[i].kind == T_FILE && n[i].nlink == 1 && Contents(b, n, i) == data && Dense(b, n, i)
  }

  class Mkfs {
    var blocks: seq<Sector>
    /** What the inode blocks hold, together with the inode that a function has read and not yet written back. */
    var inode: seq<Inode>
    var freeinode: nat
    var freeblock: nat
    ghost var owner: map<nat, Slot>

    /** The blocks from the first data block up to freeblock are in one place each; those after it are untouched. */
    ghost predicate Building()
      reads this
    {
      && |blocks| == FSSIZE && |inode| == NINODES && NMETA <= freeblock <= FSSIZE
      && Owned(blocks, inode, owner) && Filled(blocks, owner, freeblock)
    }

    /** x = freeblock++, entered in an empty slot. false is exit(1): a block past the end of the image cannot be read.
        */
    method TakeBlock(i: nat, k: nat) returns (ok: bool, b: nat)
      requires Building() && i < |inode| && k < NSLOTS && AddrOf(blocks, inode, i, k) == 0
      requires k > NDIRECT ==> inode[i].addrs[NDIRECT] != 0
      modifies this`blocks, this`inode, this`freeblock, this`owner
      ensures !ok ==> freeblock == old(freeblock) == FSSIZE
      ensures ok ==> Building() && b == AddrOf(blocks, inode, i, k) != 0 && SameButAddrs(old(inode), inode, i)
      ensures ok ==> SameBytes(old(blocks), old(inode), blocks, inode) && Extends(old(owner), owner, i)
      ensures ok ==> InodesKept(SuperBlock(), old(blocks), blocks) && owner == old(owner)[b := Slot(i, k)]
    {
      b := freeblock;
      if b >= FSSIZE {
        return false, b;
      }
      hide AddrOf, PutWord, Owned, SameBytes, Filled, InodesKept;
      TakeKeeps(blocks, inode, owner, i, k, b);
      if k <= NDIRECT {
        inode := inode[i := inode[i].(addrs := inode[i].addrs[k := b])];
      } else {
        var t := inode[i].addrs[NDIRECT];
        blocks := blocks[t := PutWord(blocks[t], k - NDIRECT - 1, b)];
      }
      freeblock := freeblock + 1;
      owner := owner[b := Slot(i, k)];
      return true, b;
    }

    /** The block of file block fbn, taken if there is none. */
    method FindBlock(i: nat, fbn: nat) returns (ok: bool, x: nat)
      requires Building() && i < |inode| && fbn < MAXFILE
      modifies this`blocks, this`inode, this`freeblock, this`owner
      ensures !ok ==> freeblock == FSSIZE
      ensures ok ==> Building() && x == AddrOf(blocks, inode, i, SlotOf(fbn)) != 0 && SameButAddrs(old(inode), inode, i)
      ensures ok ==> SameBytes(old(blocks), old(inode), blocks, inode) && Extends(old(owner), owner, i)
      ensures ok ==> InodesKept(SuperBlock(), old(blocks), blocks) && Gains(old(owner), owner, fbn, fbn + 1)
    {
      hide AddrOf, Owned, SameBytes, GetWord, Filled, InodesKept;
      SameBytesRefl(blocks, inode);
      TouchesNone(SuperBlock(), blocks, owner, {});
      ok := true;
      if fbn < NDIRECT {
        DirectAddr(blocks, inode, i, fbn);
        x := inode[i].addrs[fbn];
        if x == 0 {
          ok, x := TakeBlock(i, fbn);
        }
        return;
      }
      DirectAddr(blocks, inode, i, NDIRECT);
      EntryAddr(blocks, inode, owner, i, fbn - NDIRECT);
      ghost var blocks0, inode0 := blocks, inode;
      if inode[i].addrs[NDIRECT] == 0 {
        ok, x := TakeBlock(i, NDIRECT);
        if !ok {
          return;
        }
        DirectAddr(blocks, inode, i, NDIRECT);
      }
      EntryAddr(blocks, inode, owner, i, fbn - NDIRECT);
      ghost var blocks1, inode1 := blocks, inode;
      x := GetWord(blocks[inode[i].addrs[NDIRECT]], fbn - NDIRECT);
      if x == 0 {
        ok, x := TakeBlock(i, fbn + 1);
        if ok {
          SameBytesTwice(blocks0, inode0, blocks1, inode1, blocks, inode);
          FileSystem.KeptTwice(SuperBlock(), blocks0, blocks1, blocks);
        }
      }
    }

    /** iappend's loop body: rsect, bcopy, wsect of one block. */
    method AppendBlock(i: nat, off: nat, part: seq<Byte>) returns (ok: bool)
      requires Building() && i < |inode| && off / BSIZE < MAXFILE && off % BSIZE + |part| <= BSIZE
      modifies this`blocks, this`inode, this`freeblock, this`owner
      ensures !ok ==> freeblock == FSSIZE
      ensures ok ==> Building() && SameButAddrs(old(inode), inode, i) && Extends(old(owner), owner, i)
      ensures ok ==> Stored(old(blocks), old(inode), blocks, inode, i, off, part)
      ensures ok ==>
          AddrOf(blocks, inode, i, SlotOf(off / BSIZE)) != 0 && AddrOf(blocks, inode, i, SlotOf(off / BSIZE)) in owner
      ensures ok ==> InodesKept(SuperBlock(), old(blocks), blocks)
      ensures ok ==> Gains(old(owner), owner, off / BSIZE, off / BSIZE + 1)
    {
      hide AddrOf, Owned, SameBytes, Stored, ByteAt, Gains;
      ghost var blocks0, inode0 := blocks, inode;
      var x;
      ok, x := FindBlock(i, off / BSIZE);
      if ok {
        var bn := off / BSIZE;
        OnePlace(blocks, inode, owner, i, SlotOf(bn), i, SlotOf(bn));
        var buf := blocks[x][..off % BSIZE] + part + blocks[x][off % BSIZE + |part|..];
        assert SameMaps(blocks, blocks[x := buf], owner) && Filled(blocks[x := buf], owner, freeblock);
        hide Filled;
        SameOwned(blocks, blocks[x := buf], inode, owner);
        SameAddr(blocks, blocks[x := buf], inode, owner, i, SlotOf(bn));
        StoreBytes(blocks, inode, owner, i, off, part, buf);
        StoredAfter(blocks0, inode0, blocks, inode, blocks[x := buf], inode, i, off, part);
        blocks := blocks[x := buf];
      }
    }

    /** iappend's loop. */
    method AppendBlocks(i: nat, p: seq<Byte>) returns (ok: bool)
      requires Building() && i < |inode|
      modifies this`blocks, this`inode, this`freeblock, this`owner
      ensures !ok ==> freeblock == FSSIZE || old(inode)[i].size + |p| > MAXFILE * BSIZE
      ensures ok ==> Building() && SameButAddrs(old(inode), inode, i) && Extends(old(owner), owner, i)
      ensures ok ==> Stored(old(blocks), old(inode), blocks, inode, i, old(inode)[i].size, p)
      ensures ok ==> Covered(blocks, inode, owner.Keys, i, old(inode)[i].size, old(inode)[i].size + |p|)
      ensures ok && p != [] ==> old(inode)[i].size + |p| <= MAXFILE * BSIZE
      ensures ok ==> InodesKept(SuperBlock(), old(blocks), blocks)
      ensures ok ==> Gains(old(owner), owner, old(inode)[i].size / BSIZE, EndBlock(old(inode)[i].size, |p|))
    {
      hide AddrOf, Owned, SameBytes, Stored, ByteAt, Covered, Extends, SameButAddrs, SlotOf, Filled, InodesKept, Gains;
      TouchesNone(SuperBlock(), blocks, owner, {});
      ghost var blocks0, inode0, owner0 := blocks, inode, owner;
      var off := inode[i].size;
      ghost var off0 := off;
      WriteStart(SuperBlock(), blocks, inode, owner, owner.Keys, i, off, p);
      GainsNone(owner, off / BSIZE);
      var k := 0;
      while k < |p|
        invariant k <= |p| && off == off0 + k && Building() && i < |inode| && SameButAddrs(inode0, inode, i)
        invariant Extends(owner0, owner, i) && Stored(blocks0, inode0, blocks, inode, i, off0, p[..k])
        invariant Covered(blocks, inode, owner.Keys, i, off0, off) && (k > 0 ==> off <= MAXFILE * BSIZE)
        invariant InodesKept(SuperBlock(), blocks0, blocks)
        invariant Gains(owner0, owner, off0 / BSIZE, EndBlock(off0, k)) && (k == 0 || k == |p| || off % BSIZE == 0)
      {
        var fbn := off / BSIZE;
        if fbn >= MAXFILE {
          return false;
        }
        ghost var blocks1, inode1, owner1 := blocks, inode, owner;
        var n1 := Min(|p| - k, (fbn + 1) * BSIZE - off);
        ok := AppendBlock(i, off, p[k..k + n1]);
        if !ok {
          return;
        }
        NextSame(inode0, owner0, inode1, owner1, inode, owner, i);
        FileSystem.KeptTwice(SuperBlock(), blocks0, blocks1, blocks);
        StoredThen(blocks0, inode0, blocks1, inode1, blocks, inode, i, off0, p, k, n1);
        KeysGrow(owner1, owner, i);
        EndNext(off0, k, n1);
        GainsTwice(owner0, owner1, owner, i, off0 / BSIZE, off / BSIZE, off / BSIZE + 1);
        CoveredNext(blocks1, inode1, owner1, owner1.Keys, blocks, inode, owner, owner.Keys, i, off0, off, n1);
        off := off + n1;
        k := k + n1;
      }
      assert p[..k] == p;
      return true;
    }

    static lemma GainsNone(o: map<nat, Slot>, lo: nat)
      ensures Gains(o, o, lo, lo)
    {
    }

    static lemma KeysGrow(o: map<nat, Slot>, o': map<nat, Slot>, i: nat)
      requires Extends(o, o', i)
      ensures o.Keys <= o'.Keys
    {
    }

    /** winode: inode i to its place in its block. It changes no file. */
    method Winode(i: nat, ghost b0: Image, ghost n0: seq<Inode>)
      requires Building() && i < |inode| == |n0| && (forall j :: 0 <= j < |inode| && j != i ==> inode[j] == n0[j])
      requires StoredOthers(SuperBlock(), b0, blocks, i) && Synced(SuperBlock(), b0, n0)
      modifies this`blocks
      ensures Building() && Synced(SuperBlock(), blocks, inode)
      ensures SameBytes(old(blocks), inode, blocks, inode) && SameAddrs(old(blocks), blocks, inode)
    {
      hide Owned, Filled, DInode, EncodeInode, DecodeInode, StoredOthers, SameBytes, SameAddrs;
      var bn := SuperBlock().inodestart + i / IPB;
      var buf := EncodeInode(blocks[bn], i % IPB, inode[i]);
      StoreInode(SuperBlock(), blocks, i, inode[i]);
      Apart(blocks, inode, owner, freeblock, bn, buf);
      WrittenBack(b0, n0, blocks, blocks[bn := buf], inode, i);
      blocks := blocks[bn := buf];
    }

    static lemma WrittenBack(b0: Image, n0: seq<Inode>, b: Image, b': Image, n: seq<Inode>, i: nat)
      requires i < |n| == |n0| && (forall j :: 0 <= j < |n| && j != i ==> n[j] == n0[j]) && Synced(SuperBlock(), b0, n0)
      requires StoredOthers(SuperBlock(), b0, b, i) && StoredOthers(SuperBlock(), b, b', i)
             && DInode(SuperBlock(), b', i) == n[i]
      ensures Synced(SuperBlock(), b', n)
    {
      hide DInode;
    }

    /** iappend: the file grows by p at its end and no other file changes. false is the failed assert on the file's
        size, or exit(1) when the image is full. */
    method Iappend(i: nat, p: seq<Byte>) returns (ok: bool)
      requires Building() && TailZero(blocks, inode) && Sizes(inode) && i < |inode|
             && Synced(SuperBlock(), blocks, inode)
      modifies this`blocks, this`inode, this`freeblock, this`owner
      ensures !ok ==> freeblock == FSSIZE || old(inode)[i].size + |p| > MAXFILE * BSIZE
      ensures ok ==> Building() && TailZero(blocks, inode) && Sizes(inode)
      ensures ok ==> Contents(blocks, inode, i) == old(Contents(blocks, inode, i)) + p
      ensures ok ==> OthersKept(old(blocks), old(inode), blocks, inode, i)
      ensures ok ==> inode[i] == old(inode)[i].(size := inode[i].size, addrs := inode[i].addrs)
      ensures ok ==> DenseKept(old(blocks), old(inode), blocks, inode) && freeinode == old(freeinode)
      ensures ok ==> Synced(SuperBlock(), blocks, inode)
    {
      hide AddrOf, Owned, Stored, ByteAt, Covered, Extends, Dense, TailZero, Filled, DenseKept, Synced, InodesKept,
           StoredOthers, SameBytes, SameAddrs, Gains;
      ghost var blocks0, inode0, owner0 := blocks, inode, owner;
      ok := AppendBlocks(i, p);
      if ok {
        ghost var inode1 := inode;
        inode := inode[i := inode[i].(size := inode[i].size + |p|)];
        WriteDone(blocks0, inode0, owner0, blocks, inode1, inode, owner, owner.Keys, i, inode0[i].size, p);
        AppendDone(blocks0, inode0, owner0, blocks, inode1, inode, owner, i, p);
        KeptStored(SuperBlock(), blocks0, blocks, i);
        ghost var blocks1 := blocks;
        Winode(i, blocks0, inode0);
        ApartFiles(blocks0, inode0, blocks1, blocks, inode, i);
      }
    }

    static lemma AppendDone(b: Image, n: seq<Inode>, o: map<nat, Slot>, b': Image, n1: seq<Inode>, n': seq<Inode>,
                            o': map<nat, Slot>, i: nat, p: seq<Byte>)
      requires i < |n| && Owned(b', n1, o') && Stored(b, n, b', n1, i, n[i].size, p) && TailZero(b, n)
      requires SameButAddrs(n, n1, i) && |n'| == |n| && n' == n1[i := n'[i]] && n'[i] == n1[i].(size := n'[i].size)
      requires n'[i].size == n[i].size + |p| && Owned(b, n, o) && Extends(o, o', i)
      requires Gains(o, o', n[i].size / BSIZE, EndBlock(n[i].size, |p|))
      ensures TailZero(b', n')
      ensures Splice(Contents(b, n, i), n[i].size, p) == Contents(b, n, i) + p
    {
      hide AddrOf, ByteAt, Owned, Gains, Extends;
      MetaOnly(b', n1, o', i, n'[i]);
      forall j, bn | 0 <= j < |n| && 0 <= bn < MAXFILE && n'[j].size <= bn * BSIZE
        ensures AddrOf(b', n', j, SlotOf(bn)) == 0
      {
        NotGained(b, n, o, b', n', o', i, n[i].size / BSIZE, EndBlock(n[i].size, |p|), j, bn);
      }
    }

    /** A block that no file has gained is missing if it was before. */
    static lemma NotGained(b: Image, n: seq<Inode>, o: map<nat, Slot>, b': Image, n': seq<Inode>, o': map<nat, Slot>,
                           i: nat, lo: nat, hi: nat, j: nat, bn: nat)
      requires Owned(b, n, o) && Owned(b', n', o') && Extends(o, o', i) && |n| == |n'| && j < |n| && bn < MAXFILE
      requires Gains(o, o', lo, hi) && AddrOf(b, n, j, SlotOf(bn)) == 0 && (j == i ==> !(lo <= bn < hi))
      ensures AddrOf(b', n', j, SlotOf(bn)) == 0
    {
      hide AddrOf;
      OnePlace(b', n', o', j, SlotOf(bn), j, SlotOf(bn));
    }

    /** ialloc: the next inode. That it exists is for the caller to know: nothing checks it. */
    method Ialloc(kind: Half) returns (inum: nat)
      requires Building() && TailZero(blocks, inode) && Sizes(inode) && freeinode < NINODES
             && inode[freeinode] == Blank(0, 0)
      requires Synced(SuperBlock(), blocks, inode)
      modifies this`inode, this`freeinode, this`blocks
      ensures Synced(SuperBlock(), blocks, inode)
      ensures inum == old(freeinode) && freeinode == inum + 1 && inode == old(inode)[inum := Blank(kind, 1)]
      ensures Building() && TailZero(blocks, inode) && Sizes(inode) && Dense(blocks, inode, inum)
            && Contents(blocks, inode, inum) == []
      ensures OthersKept(old(blocks), old(inode), blocks, inode, inum)
      ensures DenseKept(old(blocks), old(inode), blocks, inode)
    {
      hide AddrOf, Owned, Filled, Synced, DInode, Dense;
      inum := freeinode;
      freeinode := freeinode + 1;
      ghost var n0 := inode;
      MetaOnly(blocks, inode, owner, inum, Blank(kind, 1));
      NewInode(blocks, inode, inum, kind);
      hide ByteAt, OthersKept, DenseKept, Contents, TailZero, SameBytes, SameAddrs, StoredOthers;
      ghost var b0 := blocks;
      inode := inode[inum := Blank(kind, 1)];
      Winode(inum, b0, n0);
      ApartFiles(b0, n0, b0, blocks, inode, inum);
    }

    static lemma NewInode(b: Image, n: seq<Inode>, i: nat, kind: Half)
      requires |b| == FSSIZE && |n| == NINODES && i < |n| && n[i] == Blank(0, 0) && TailZero(b, n)
      requires forall j, k :: 0 <= j < |n| && 0 <= k ==> AddrOf(b, n[i := Blank(kind, 1)], j, k) == AddrOf(b, n, j, k)
      requires SameBytes(b, n, b, n[i := Blank(kind, 1)])
      ensures var n' := n[i := Blank(kind, 1)];
        && OthersKept(b, n, b, n', i) && DenseKept(b, n, b, n') && TailZero(b, n')
          && StoredOthers(SuperBlock(), b, b, i)
        && Dense(b, n', i) && Contents(b, n', i) == []
    {
      hide AddrOf, ByteAt, DInode;
    }

    /** balloc: the bitmap block, with the bits of the first used blocks set. */
    method Balloc(used: nat)
      requires |blocks| == FSSIZE && used < BPB
      modifies this`blocks
      ensures |blocks| == FSSIZE && blocks == old(blocks)[58 := blocks[58]]
      ensures forall c :: 0 <= c < BPB ==> (BitAt(blocks[58], c) <==> c < used)
    {
      hide SetAt, BitAt;
      var buf := ZeroSector();
      forall c | 0 <= c < BPB
        ensures !BitAt(buf, c)
      {
        ZeroBitAt(c);
      }
      var i := 0;
      while i < used
        invariant i <= used && forall c :: 0 <= c < BPB ==> (BitAt(buf, c) <==> c < i)
      {
        forall c | 0 <= c < BPB
          ensures BitAt(SetAt(buf, i), c) <==> c < i + 1
        {
          SetAtOnly(buf, i, c);
        }
        buf := SetAt(buf, i);
        i := i + 1;
      }
      blocks := blocks[58 := buf];
    }

    static lemma ZeroBitAt(c: nat)
      requires c < BPB
      ensures !BitAt(ZeroSector(), c)
    {
      NoBits(c % 8);
    }

    /** Reading an input file in sectors and appending each. */
    method CopyIn(i: nat, data: seq<Byte>) returns (ok: bool)
      requires Building() && TailZero(blocks, inode) && Sizes(inode) && i < |inode| && inode[i].size == 0
      requires Synced(SuperBlock(), blocks, inode)
      modifies this`blocks, this`inode, this`freeblock, this`owner
      ensures !ok ==> freeblock == FSSIZE || |data| > MAXFILE * BSIZE
      ensures ok ==> Building() && TailZero(blocks, inode) && Sizes(inode) && freeinode == old(freeinode)
      ensures ok ==>
          Contents(blocks, inode, i) == data && i < |inode|
            && inode[i] == old(inode)[i].(size := inode[i].size, addrs := inode[i].addrs)
      ensures ok ==>
          OthersKept(old(blocks), old(inode), blocks, inode, i) && DenseKept(old(blocks), old(inode), blocks, inode)
      ensures ok ==> Synced(SuperBlock(), blocks, inode)
    {
      hide AddrOf, Owned, ByteAt, TailZero, Filled, Contents, Dense, Synced;
      ContentsLength(blocks, inode, i);
      ok := true;
      var pos := 0;
      while pos < |data|
        invariant pos <= |data| && Building() && TailZero(blocks, inode) && Sizes(inode) && i < |inode|
        invariant Synced(SuperBlock(), blocks, inode)
        invariant Contents(blocks, inode, i) == data[..pos] && ok
        invariant inode[i] == old(inode)[i].(size := inode[i].size, addrs := inode[i].addrs)
        invariant OthersKept(old(blocks), old(inode), blocks, inode, i)
                && DenseKept(old(blocks), old(inode), blocks, inode)
      {
        var cc := Min(BSIZE, |data| - pos);
        ContentsLength(blocks, inode, i);
        ok := Iappend(i, data[pos..pos + cc]);
        if !ok {
          return;
        }
        assert data[..pos] + data[pos..pos + cc] == data[..pos + cc];
        pos := pos + cc;
      }
      assert data[..pos] == data;
    }

    static lemma ContentsLength(b: Image, n: seq<Inode>, i: nat)
      requires i < |n|
      ensures |Contents(b, n, i)| == n[i].size
    {
    }

    /** main's loop body: an inode, an entry in the root directory, and the bytes. */
    method AddFile(ghost files: seq<Input>, k: nat, file: Input) returns (ok: bool)
      requires k < |files| && file == files[k] && |files| + 2 <= NINODES && Building() && TailZero(blocks, inode)
             && Sizes(inode)
      requires Progress(blocks, inode, files, k) && freeinode == 2 + k && Synced(SuperBlock(), blocks, inode)
      modifies this
      ensures !ok ==>
          freeblock == FSSIZE || |file.data| > MAXFILE * BSIZE || |RootBytes(files, k + 1)| > MAXFILE * BSIZE
      ensures ok ==> Building() && TailZero(blocks, inode) && Sizes(inode)
      ensures ok ==>
          Progress(blocks, inode, files, k + 1) && freeinode == 2 + (k + 1) && Synced(SuperBlock(), blocks, inode)
    {
      hide AddrOf, Owned, ByteAt, TailZero, Filled, Contents, Dense, Sizes, Encode, Synced;
      ghost var b0, n0 := blocks, inode;
      var inum := Ialloc(T_FILE);
      ghost var b1, n1 := blocks, inode;
      ContentsLength(blocks, inode, ROOTINO);
      ok := Iappend(ROOTINO, Encode(inum, file.name));
      if !ok {
        return;
      }
      ghost var b2, n2 := blocks, inode;
      ok := CopyIn(inum, file.data);
      if ok {
        Advance(b0, n0, b1, n1, b2, n2, blocks, inode, files, k);
      }
    }

    static lemma Advance(b0: Image, n0: seq<Inode>, b1: Image, n1: seq<Inode>, b2: Image, n2: seq<Inode>, b: Image,
                         n: seq<Inode>, files: seq<Input>, k: nat)
      requires k < |files| && |files| + 2 <= |n0| && Progress(b0, n0, files, k)
      requires OthersKept(b0, n0, b1, n1, 2 + k) && DenseKept(b0, n0, b1, n1) && Dense(b1, n1, 2 + k)
             && n1[2 + k].kind == T_FILE && n1[2 + k].nlink == 1
      requires OthersKept(b1, n1, b2, n2, ROOTINO) && DenseKept(b1, n1, b2, n2)
      requires n2[ROOTINO].kind == n1[ROOTINO].kind && n2[ROOTINO].nlink == n1[ROOTINO].nlink
      requires Contents(b2, n2, ROOTINO) == Contents(b1, n1, ROOTINO) + Encode(k + 2, files[k].name)
      requires OthersKept(b2, n2, b, n, 2 + k) && DenseKept(b2, n2, b, n)
      requires n[2 + k].kind == n2[2 + k].kind && n[2 + k].nlink == n2[2 + k].nlink
      requires Contents(b, n, 2 + k) == files[k].data
      ensures Progress(b, n, files, k + 1)
    {
      hide ByteAt, Contents, Dense, Encode;
      forall j | 0 <= j < k
        ensures HoldsFile(b, n, 2 + j, files[j].data)
      {
        assert HoldsFile(b0, n0, 2 + j, files[j].data);
      }
    }

    /** A zeroed image. */
    constructor ()
      ensures Started()
    {
      blocks := seq(FSSIZE, _ => ZeroSector());
      inode := seq(NINODES, _ => Blank(0, 0));
      freeinode := 1;
      freeblock := NMETA;
      owner := map[];
    }

    ghost predicate Started()
      reads this
    {
      && blocks == seq(FSSIZE, _ => ZeroSector()) && inode == seq(NINODES, _ => Blank(0, 0))
      && freeinode == 1 && freeblock == NMETA && owner == map[]
    }

    /** main up to the loop over the files: the root directory with its two entries. */
    method MakeRoot(ghost files: seq<Input>) returns (ok: bool)
      requires Started() && |files| + 2 <= NINODES
      modifies this
      ensures ok ==>
          Building() && TailZero(blocks, inode) && Sizes(inode) && Progress(blocks, inode, files, 0) && freeinode == 2
      ensures ok ==> Synced(SuperBlock(), blocks, inode)
      ensures !ok ==> freeblock == FSSIZE
    {
      StartedFits(blocks, inode);
      StartedSynced(blocks, inode);
      hide AddrOf, Owned, ByteAt, TailZero, Filled, Contents, Dense, Encode, Synced, DenseKept, OthersKept;
      ghost var b0, n0 := blocks, inode;
      var root := Ialloc(T_DIR);
      ghost var b1, n1 := blocks, inode;
      ContentsLength(blocks, inode, root);
      ok := Iappend(root, Encode(root, Dot()));
      if !ok {
        return;
      }
      ghost var b2, n2 := blocks, inode;
      ContentsLength(blocks, inode, root);
      ok := Iappend(root, Encode(root, DotDot()));
      if ok {
        assert [] + Encode(ROOTINO, Dot()) == Encode(ROOTINO, Dot());
        RootDone(b0, n0, b1, n1, b2, n2, blocks, inode, files);
      }
    }

    static lemma RootDone(b0: Image, n0: seq<Inode>, b1: Image, n1: seq<Inode>, b2: Image, n2: seq<Inode>, b: Image,
                          n: seq<Inode>, files: seq<Input>)
      requires n0 == seq(NINODES, _ => Blank(0, 0)) && |files| + 2 <= NINODES && OthersKept(b0, n0, b1, n1, ROOTINO)
      requires OthersKept(b1, n1, b2, n2, ROOTINO) && OthersKept(b2, n2, b, n, ROOTINO)
      requires Dense(b1, n1, ROOTINO) && DenseKept(b1, n1, b2, n2) && DenseKept(b2, n2, b, n)
      requires n[ROOTINO].kind == T_DIR && n[ROOTINO].nlink == 1
      requires Contents(b, n, ROOTINO) == Encode(ROOTINO, Dot()) + Encode(ROOTINO, DotDot())
      ensures Progress(b, n, files, 0)
    {
      hide Contents, Dense, Encode;
    }

    static lemma StartedFits(b: Image, n: seq<Inode>)
      requires b == seq(FSSIZE, _ => ZeroSector()) && n == seq(NINODES, _ => Blank(0, 0))
      ensures Owned(b, n, map[]) && Filled(b, map[], NMETA) && TailZero(b, n) && Sizes(n)
    {
      forall i, k | 0 <= i < |n| && 0 <= k < NSLOTS
        ensures AddrOf(b, n, i, k) == 0
      {
      }
    }

    static lemma StartedSynced(b: Image, n: seq<Inode>)
      requires b == seq(FSSIZE, _ => ZeroSector()) && n == seq(NINODES, _ => Blank(0, 0))
      ensures Synced(SuperBlock(), b, n)
    {
      hide DecodeInode;
      forall i | 0 <= i < |n|
        ensures DInode(SuperBlock(), b, i) == n[i]
      {
        ZeroInode(i % IPB);
      }
    }

    /** mkfs: the root directory and the given files, the root's size rounded up past its last entry, the bitmap. What
        the kernel's invariants demand holds of the result, and every file holds its data. */
    method Build(files: seq<Input>) returns (ok: bool)
      requires Started() && |files| + 2 <= NINODES
      modifies this
      ensures ok ==> Consistent(SuperBlock(), Below(NMETA), blocks, inode, owner)
      ensures ok ==> |inode| == NINODES && Built(blocks, inode, files) && Synced(SuperBlock(), blocks, inode)
      ensures ok ==> LogZero(blocks) && FreeBlank(inode)
      ensures !ok ==> freeblock == FSSIZE || exists j :: 0 <= j < |files| && |files[j].data| > MAXFILE * BSIZE
    {
      hide AddrOf, Owned, ByteAt, TailZero, Filled, Contents, Dense, Sizes, Progress, Synced, Built, Consistent,
           LogZero, FreeBlank;
      ok := MakeRoot(files);
      if !ok {
        return;
      }
      var k := 0;
      while k < |files|
        invariant k <= |files| && Building() && TailZero(blocks, inode) && Sizes(inode)
        invariant Progress(blocks, inode, files, k) && freeinode == 2 + k && Synced(SuperBlock(), blocks, inode)
      {
        RootLength(files, k + 1);
        ok := AddFile(files, k, files[k]);
        if !ok {
          return;
        }
        k := k + 1;
      }
      Finish(files);
      ok := true;
    }

    /** main after the loop: the root's size rounded up past its last entry, and the bitmap. */
    method Finish(ghost files: seq<Input>)
      requires |files| + 2 <= NINODES && Building() && TailZero(blocks, inode) && Sizes(inode)
      requires Progress(blocks, inode, files, |files|) && Synced(SuperBlock(), blocks, inode)
      modifies this`blocks, this`inode
      ensures Consistent(SuperBlock(), Below(NMETA), blocks, inode, owner)
      ensures |inode| == NINODES && Built(blocks, inode, files) && Synced(SuperBlock(), blocks, inode)
            && LogZero(blocks)
      ensures FreeBlank(inode)
    {
      hide AddrOf, Owned, ByteAt, TailZero, Filled, Contents, Dense, Sizes, Progress, BitAt, Marked, Synced,
           StoredOthers, Built, SameBytes, SameAddrs, LogZero, FreeBlank;
      RootSize(blocks, inode, files);
      ghost var b0, n0 := blocks, inode;
      var off := (inode[ROOTINO].size / BSIZE + 1) * BSIZE;
      Rounded(blocks, inode, owner, files, off);
      RestBlank(blocks, inode, files, off);
      inode := inode[ROOTINO := inode[ROOTINO].(size := off)];
      TouchesNone(SuperBlock(), b0, owner, {});
      KeptStored(SuperBlock(), b0, b0, ROOTINO);
      Winode(ROOTINO, b0, n0);
      BuiltSame(b0, blocks, inode, files);
      ghost var b1 := blocks;
      Balloc(freeblock);
      Apart(b1, inode, owner, freeblock, 58, blocks[58]);
      Finished(b1, blocks, inode, owner, freeblock);
      BuiltSame(b1, blocks, inode, files);
    }

    static lemma {:induction false} RootLength(files: seq<Input>, k: nat)
      requires k <= |files|
      ensures |RootBytes(files, k)| == DESIZE * (k + 2)
    {
      hide Encode;
      if k > 0 {
        RootLength(files, k - 1);
      }
    }

    static lemma RestBlank(b: Image, n: seq<Inode>, files: seq<Input>, off: Word)
      requires |files| + 2 <= |n| && Progress(b, n, files, |files|)
      ensures FreeBlank(n[ROOTINO := n[ROOTINO].(size := off)])
    {
      hide Contents, Dense;
      forall j | 2 <= j < 2 + |files|
        ensures n[j].kind == T_FILE
      {
        assert HoldsFile(b, n, 2 + (j - 2), files[j - 2].data);
      }
    }

    static lemma RootSize(b: Image, n: seq<Inode>, files: seq<Input>)
      requires |files| + 2 <= |n| && Progress(b, n, files, |files|)
      ensures n[ROOTINO].size == DESIZE * (|files| + 2)
    {
      RootLength(files, |files|);
      ContentsLength(b, n, ROOTINO);
    }

    /** Every file holds its data and has no holes, and the inodes that are left are free. The root directory holds the
        entries and then zeros up to a block boundary past them; it has no hole exactly if the entries do not end on a
        block boundary themselves. */
    static ghost predicate Built(b: Image, n: seq<Inode>, files: seq<Input>)
      requires |files| + 2 <= |n|
    {
      && n[ROOTINO].size == (|RootBytes(files, |files|)| / BSIZE + 1) * BSIZE
      && (forall j :: 0 <= j < |files| ==> HoldsFile(b, n, 2 + j, files[j].data))
      && (forall j :: 0 <= j < |n| && j != ROOTINO && !(2 <= j < 2 + |files|) ==> n[j] == Blank(0, 0))
      && n[ROOTINO].kind == T_DIR && n[ROOTINO].nlink == 1 && RootBytes(files, |files|) <= Contents(b, n, ROOTINO)
      && (forall p :: |RootBytes(files, |files|)| <= p < n[ROOTINO].size ==> Contents(b, n, ROOTINO)[p] == 0)
      && (Dense(b, n, ROOTINO) <==> |RootBytes(files, |files|)| % BSIZE != 0)
      && (forall bn :: 0 <= bn < MAXFILE && |RootBytes(files, |files|)| <= bn * BSIZE ==>
            AddrOf(b, n, ROOTINO, SlotOf(bn)) == 0)
    }

    static lemma Rounded(b: Image, n: seq<Inode>, o: map<nat, Slot>, files: seq<Input>, off: nat)
      requires |files| + 2 <= |n| == NINODES && Owned(b, n, o) && TailZero(b, n) && Sizes(n)
             && Progress(b, n, files, |files|)
      requires off == (n[ROOTINO].size / BSIZE + 1) * BSIZE
      ensures var n' := n[ROOTINO := n[ROOTINO].(size := off)];
        Owned(b, n', o) && Sizes(n') && Built(b, n', files)
    {
      RootSize(b, n, files);
      var n' := n[ROOTINO := n[ROOTINO].(size := off)];
      MetaOnly(b, n, o, ROOTINO, n'[ROOTINO]);
      hide AddrOf, ByteAt, Owned, RootBytes, TailZero;
      forall j | 0 <= j < |n| && j != ROOTINO
        ensures Contents(b, n', j) == Contents(b, n, j) && (Dense(b, n, j) ==> Dense(b, n', j))
      {
      }
      RoundedRoot(b, n, n', RootBytes(files, |files|), off);
      RootLength(files, |files|);
      hide Contents, Dense;
      forall j | 0 <= j < |files|
        ensures HoldsFile(b, n', 2 + j, files[j].data)
      {
        assert HoldsFile(b, n, 2 + j, files[j].data);
      }
    }

    /** Past the entries the rounded root directory reads as zeros. */
    static lemma RoundedRoot(b: Image, n: seq<Inode>, n': seq<Inode>, entries: seq<Byte>, off: nat)
      requires |n'| == |n| > ROOTINO && TailZero(b, n) && Contents(b, n, ROOTINO) == entries && Dense(b, n, ROOTINO)
      requires n[ROOTINO].size == |entries| < MAXFILE * BSIZE
      requires n'[ROOTINO].size == off == (|entries| / BSIZE + 1) * BSIZE
      requires forall k :: 0 <= k ==> AddrOf(b, n', ROOTINO, k) == AddrOf(b, n, ROOTINO, k)
      requires forall p :: 0 <= p ==> ByteAt(b, n', ROOTINO, p) == ByteAt(b, n, ROOTINO, p)
      ensures entries <= Contents(b, n', ROOTINO)
      ensures forall p :: |entries| <= p < off ==> Contents(b, n', ROOTINO)[p] == 0
      ensures Dense(b, n', ROOTINO) <==> |entries| % BSIZE != 0
      ensures forall bn :: 0 <= bn < MAXFILE && |entries| <= bn * BSIZE ==> AddrOf(b, n', ROOTINO, SlotOf(bn)) == 0
    {
      hide AddrOf, ByteAt;
      if |entries| % BSIZE == 0 {
        var bn := |entries| / BSIZE;
        assert bn < MAXFILE && n[ROOTINO].size <= bn * BSIZE < off;
        assert AddrOf(b, n', ROOTINO, SlotOf(bn)) == 0;
      }
    }

    /** Entry e of the root directory: itself under both dots, and then file after file. */
    static function RootName(files: seq<Input>, e: nat): Dirent
      requires e < |files| + 2
    {
      if e == 0 then Dirent(1, [46])
      else if e == 1 then Dirent(1, [46, 46])
      else Dirent(e, Cut(files[e - 2].name))
    }

    static lemma DotsCut()
      ensures Cut(Dot()) == [46] && Cut(DotDot()) == [46, 46]
    {
    }

    static lemma {:induction false} RootEntry(files: seq<Input>, k: nat, e: nat)
      requires k <= |files| && k + 2 < 0x1_0000 && e < k + 2
      ensures |RootBytes(files, k)| == DESIZE * (k + 2) && EntryAt(RootBytes(files, k), e) == RootName(files, e)
    {
      DotsCut();
      hide Encode, Decode, Cut, Dot, DotDot;
      RootLength(files, k);
      var c := RootBytes(files, k);
      if k == 0 {
        DirentRoundTrip(ROOTINO, Dot());
        DirentRoundTrip(ROOTINO, DotDot());
        assert c[0..DESIZE] == Encode(ROOTINO, Dot()) && c[DESIZE..2 * DESIZE] == Encode(ROOTINO, DotDot());
      } else if e == k + 1 {
        RootLength(files, k - 1);
        DirentRoundTrip(k + 1, files[k - 1].name);
        assert c[DESIZE * e..DESIZE * e + DESIZE] == Encode(k + 1, files[k - 1].name);
      } else {
        RootEntry(files, k - 1, e);
        assert c[DESIZE * e..DESIZE * e + DESIZE] == RootBytes(files, k - 1)[DESIZE * e..DESIZE * e + DESIZE];
      }
    }

    /** The next name goes behind those of the files. */
    static lemma RootFree(b: Image, n: seq<Inode>, files: seq<Input>)
      requires |files| + 2 <= |n| && |files| + 2 < 0x1_0000 && Built(b, n, files)
      ensures var es := Entries(Contents(b, n, ROOTINO)); FirstFree(es, 0) == |files| + 2 < |es|
    {
      hide Contents, Dense, RootBytes, Decode, FirstFree, Encode, Cut, RootName, Built;
      RootList(b, n, files);
      var es := Entries(Contents(b, n, ROOTINO));
      assert es[|files| + 2].inum == 0;
    }

    /** In the root directory of the image every file is found under its name, the first if a name is given twice, and
        the root itself under "." and ".."; no other name is found. */
    static lemma RootResolves(b: Image, n: seq<Inode>, files: seq<Input>, name: seq<Byte>)
      requires |files| + 2 <= |n| && |files| + 2 < 0x1_0000 && Built(b, n, files)
      ensures var es := Entries(Contents(b, n, ROOTINO));
        var k := First(es, Cut(name), 0);
        && (k < |es| ==> k < |files| + 2 && es[k] == RootName(files, k) && es[k].name == Cut(name))
        && forall e :: 0 <= e < |files| + 2 && RootName(files, e).name == Cut(name) ==> k <= e
    {
      hide Contents, Dense, RootBytes, Decode, Encode, Cut, RootName;
      RootList(b, n, files);
      var es := Entries(Contents(b, n, ROOTINO));
      var k := First(es, Cut(name), 0);
      forall e | 0 <= e < |files| + 2 && RootName(files, e).name == Cut(name)
        ensures k <= e
      {
        assert Matches(es[e], Cut(name));
      }
    }

    /** The entries of the root directory, and no others in use. */
    static lemma RootList(b: Image, n: seq<Inode>, files: seq<Input>)
      requires |files| + 2 <= |n| && |files| + 2 < 0x1_0000 && Built(b, n, files)
      ensures var es := Entries(Contents(b, n, ROOTINO));
        && |files| + 2 < |es| && (forall e :: 0 <= e < |files| + 2 ==> es[e] == RootName(files, e) && es[e].inum != 0)
        && forall e :: |files| + 2 <= e < |es| ==> es[e].inum == 0
    {
      hide Contents, Dense, RootBytes, Decode, Encode, Cut;
      RootLength(files, |files|);
      var c, k := Contents(b, n, ROOTINO), |files| + 2;
      ContentsLength(b, n, ROOTINO);
      var es := Entries(c);
      forall e | 0 <= e < k
        ensures es[e] == RootName(files, e)
      {
        RootEntry(files, |files|, e);
        assert c[DESIZE * e..DESIZE * e + DESIZE] == RootBytes(files, |files|)[DESIZE * e..DESIZE * e + DESIZE];
      }
      forall e | k <= e < |es|
        ensures es[e].inum == 0
      {
        ZeroEntry(c, e);
      }
    }

    static lemma ZeroEntry(c: seq<Byte>, e: nat)
      requires DESIZE * e + DESIZE <= |c| && c[DESIZE * e] == 0 == c[DESIZE * e + 1]
      ensures EntryAt(c, e).inum == 0
    {
    }

    /** The root directory of a new image has a hole exactly if there are 30 files, or 32 more, and so on; its hole is
        where the next name goes. */
    static lemma RootHole(b: Image, n: seq<Inode>, files: seq<Input>)
      requires |files| + 2 <= |n| == NINODES && Built(b, n, files)
      ensures Dense(b, n, ROOTINO) <==> |files| % 32 != 30
      ensures OwnThere(n, ROOTINO, 0, n[ROOTINO].size) <==> |files| % 32 != 30
      ensures OwnAddr(n, ROOTINO, DESIZE * (|files| + 2) / BSIZE) == 0 <==> |files| % 32 == 30
      ensures |files| == 30 ==> n[ROOTINO].size == 1024 && n[ROOTINO].addrs[1] == 0
    {
      hide Contents, RootBytes;
      RootLength(files, |files|);
      var bn := DESIZE * (|files| + 2) / BSIZE;
      assert bn < NDIRECT && AddrOf(b, n, ROOTINO, SlotOf(bn)) == n[ROOTINO].addrs[bn];
      if |files| % 32 == 30 {
        assert DESIZE * (|files| + 2) == bn * BSIZE;
        assert OwnAddr(n, ROOTINO, bn) == 0;
      } else {
        DenseOwn(b, n, ROOTINO, 0, n[ROOTINO].size);
        assert bn * BSIZE < n[ROOTINO].size;
      }
    }

    static lemma Finished(b: Image, b': Image, n: seq<Inode>, o: map<nat, Slot>, freeblock: nat)
      requires |b| == |b'| == FSSIZE && Owned(b', n, o) && Filled(b', o, freeblock) && NMETA <= freeblock <= FSSIZE
             && Sizes(n)
      requires Synced(SuperBlock(), b, n) && b' == b[58 := b'[58]]
      requires forall c :: 0 <= c < BPB ==> (BitAt(b'[58], c) <==> c < freeblock)
      ensures Consistent(SuperBlock(), Below(NMETA), b', n, o) && Synced(SuperBlock(), b', n) && LogZero(b')
    {
      hide Owned, BitAt, DecodeInode;
      forall x | 0 <= x < |b'|
        ensures InUse(b', 58, x) <==> x in o.Keys + Below(NMETA)
      {
        assert x / BPB == 0 && x % BPB == x;
      }
    }

    static lemma BuiltSame(b: Image, b': Image, n: seq<Inode>, files: seq<Input>)
      requires |files| + 2 <= |n| && Built(b, n, files) && SameBytes(b, n, b', n) && SameAddrs(b, b', n)
      ensures Built(b', n, files)
    {
      hide AddrOf, ByteAt;
      forall i | 0 <= i < |n|
        ensures Contents(b', n, i) == Contents(b, n, i) && (Dense(b, n, i) <==> Dense(b', n, i))
      {
      }
      hide Contents, Dense, RootBytes;
      forall j | 0 <= j < |files|
        ensures HoldsFile(b', n, 2 + j, files[j].data)
      {
        assert HoldsFile(b, n, 2 + j, files[j].data);
      }
    }
  }
}
