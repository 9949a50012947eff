/** Block allocation and files: balloc, bfree, bmap, itrunc, readi, writei over the blocks as bread returns them. */
module FileSystem {
  import opened Bytes
  import opened Bitmap
  import opened BlockMap
  import opened DiskInodes
  import opened Params
  import opened Sets

  /** First value that a size_t does not hold. */
  const SIZE_T: nat := 0x1_0000_0000_0000_0000

  datatype Super = Super(size: nat, ninodes: nat, inodestart: nat, bmapstart: nat)

  /** The inode blocks have room for every inode and the bitmap a bit for every block; they and block 0 are never handed
      out. */
  ghost predicate Layout(sb: Super, reserved: set<nat>, blocks: Image)
  {
    && sb.size == |blocks| < 0x1_0000_0000 && 0 in reserved
    && sb.inodestart + InodeBlocks(sb.ninodes) <= sb.bmapstart && sb.bmapstart + BitmapBlocks(sb.size) <= sb.size
    && forall x :: sb.inodestart <= x < sb.bmapstart + BitmapBlocks(sb.size) ==> x in reserved
  }

  /** Blocks it takes to hold n inodes. */
  function InodeBlocks(n: nat): nat
  {
    (n + IPB - 1) / IPB
  }

  /** Blocks it takes to have a bit for each of n. */
  function BitmapBlocks(n: nat): nat
  {
    (n + BPB - 1) / BPB
  }

  /** The bits that are set are those of the blocks in used. */
  ghost predicate Marked(sb: Super, blocks: Image, used: set<nat>)
    requires sb.bmapstart + BitmapBlocks(|blocks|) <= |blocks|
  {
    forall b {:trigger InUse(blocks, sb.bmapstart, b)} :: 0 <= b < |blocks| ==>
        (InUse(blocks, sb.bmapstart, b) <==> b in used)
  }

  ghost predicate Sizes(inode: seq<Inode>)
  {
    forall i :: 0 <= i < |inode| ==> inode[i].size <= MAXFILE * BSIZE
  }

  /** No block is free. */
  ghost predicate Full(sb: Super, blocks: Image)
  {
    forall b {:trigger InUse(blocks, sb.bmapstart, b)} :: 0 <= b < |blocks| ==>
      sb.bmapstart + b / BPB < |blocks| && InUse(blocks, sb.bmapstart, b)
  }

  /** What an allocation leaves behind: the bit of b set, and b zeroed. */
  function Allocated(sb: Super, blocks: Image, b: nat): (r: Image)
    requires b < |blocks| && sb.bmapstart + b / BPB < |blocks|
    ensures |r| == |blocks|
  {
    var bb := sb.bmapstart + b / BPB;
    blocks[bb := SetAt(blocks[bb], b % BPB)][b := ZeroSector()]
  }

  /** The bitmap does not change where blocks of files change. */
  lemma SameMarks(sb: Super, blocks: Image, blocks': Image, reserved: set<nat>, used: set<nat>)
    requires Layout(sb, reserved, blocks) && |blocks'| == |blocks| && Marked(sb, blocks, used)
    requires forall b :: sb.bmapstart <= b < sb.bmapstart + BitmapBlocks(sb.size) ==> blocks'[b] == blocks[b]
    ensures Marked(sb, blocks', used)
  {
    hide BitAt;
    forall c | 0 <= c < |blocks|
      ensures InUse(blocks', sb.bmapstart, c) <==> c in used
    {
      var b := sb.bmapstart + c / BPB;
      assert blocks'[b] == blocks[b];
      assert InUse(blocks', sb.bmapstart, c) <==> InUse(blocks, sb.bmapstart, c);
    }
  }

  /** Taking a block marks it and no other. */
  lemma MarkedPlus(sb: Super, reserved: set<nat>, blocks: Image, used: set<nat>, b: nat)
    requires Layout(sb, reserved, blocks) && Marked(sb, blocks, used) && b < |blocks| && b !in reserved
    ensures Marked(sb, Allocated(sb, blocks, b), used + {b})
  {
    var bb := sb.bmapstart + b / BPB;
    var blocks1 := blocks[bb := SetAt(blocks[bb], b % BPB)];
    forall c | 0 <= c < |blocks|
      ensures InUse(blocks1, sb.bmapstart, c) <==> c in used + {b}
    {
      SetInUse(blocks, sb.bmapstart, b, c);
    }
    hide SetAt, InUse;
    SameMarks(sb, blocks1, blocks1[b := ZeroSector()], reserved, used + {b});
  }

  /** A free block belongs to no file, and taking it changes no address and no byte. */
  lemma AllocatedFree(sb: Super, blocks: Image, inode: seq<Inode>, owner: map<nat, Slot>, reserved: set<nat>, b: nat)
    requires Layout(sb, reserved, blocks) && Owned(blocks, inode, owner) && owner.Keys !! reserved
    requires Marked(sb, blocks, owner.Keys + reserved) && b < |blocks| && !InUse(blocks, sb.bmapstart, b)
    ensures var blocks' := Allocated(sb, blocks, b);
      && b !in owner && b !in reserved && b > 0 && blocks'[b] == ZeroSector()
      && Owned(blocks', inode, owner) && SameBytes(blocks, inode, blocks', inode) && SameMaps(blocks, blocks', owner)
      && Marked(sb, blocks', owner.Keys + reserved + {b})
  {
    hide Owned, InUse, SetAt;
    assert b !in owner && b !in reserved;
    assert sb.bmapstart + b / BPB in reserved;
    MarkedPlus(sb, reserved, blocks, owner.Keys + reserved, b);
    FreeIrrelevant(blocks, Allocated(sb, blocks, b), inode, owner);
  }

  /** No file gets a hole. */
  ghost predicate DenseKept(b: Image, n: seq<Inode>, b': Image, n': seq<Inode>)
  {
    |n'| == |n| && forall j :: 0 <= j < |n| && Dense(b, n, j) ==> Dense(b', n', j)
  }

  /** Only logged blocks differ, and no inode block; and the blocks that files gain are logged. */
  ghost predicate Touches(sb: Super, blocks: Image, owner: map<nat, Slot>, blocks': Image, owner': map<nat, Slot>,
                          logged: set<nat>)
  {
    && |blocks'| == |blocks| && (forall x :: x in owner' ==> x in owner || x in logged)
    && forall x :: 0 <= x < |blocks| && (x !in logged || sb.inodestart <= x < sb.bmapstart) ==> blocks'[x] == blocks[x]
  }

  lemma TouchesTwice(sb: Super, b: Image, o: map<nat, Slot>, b': Image, o': map<nat, Slot>, b'': Image,
                     o'': map<nat, Slot>, l: set<nat>, l': set<nat>)
    requires Touches(sb, b, o, b', o', l) && Touches(sb, b', o', b'', o'', l') && l <= l'
    ensures Touches(sb, b, o, b'', o'', l')
  {
  }

  /** The inode blocks are the same. */
  ghost predicate InodesKept(sb: Super, blocks: Image, blocks': Image)
  {
    |blocks'| == |blocks| && forall x :: sb.inodestart <= x < sb.bmapstart && x < |blocks| ==> blocks'[x] == blocks[x]
  }

  lemma TouchesNone(sb: Super, b: Image, o: map<nat, Slot>, l: set<nat>)
    ensures Touches(sb, b, o, b, o, l) && InodesKept(sb, b, b)
  {
  }

  /** Blocks handed out are neither inode blocks nor the bitmap. */
  lemma NotReserved(sb: Super, reserved: set<nat>, blocks: Image, a: nat)
    requires Layout(sb, reserved, blocks) && a !in reserved
    ensures !(sb.inodestart <= a < sb.bmapstart + BitmapBlocks(sb.size))
  {
  }

  /** Inode i as it is stored. */
  function DInode(sb: Super, blocks: Image, i: nat): Inode
    requires i < sb.ninodes && sb.inodestart + InodeBlocks(sb.ninodes) <= |blocks|
  {
    DecodeInode(blocks[sb.inodestart + i / IPB], i % IPB)
  }

  /** Every in-memory inode is written through. */
  ghost predicate Synced(sb: Super, blocks: Image, inode: seq<Inode>)
  {
    && sb.inodestart + InodeBlocks(sb.ninodes) <= |blocks| && |inode| == sb.ninodes
    && forall i :: 0 <= i < |inode| ==> DInode(sb, blocks, i) == inode[i]
  }

  /** Stored inodes have the kinds that those in memory have. */
  ghost predicate StoredKinds(sb: Super, blocks: Image, inode: seq<Inode>)
  {
    && sb.inodestart + InodeBlocks(sb.ninodes) <= |blocks| && |inode| == sb.ninodes
    && forall i :: 0 <= i < |inode| ==> DInode(sb, blocks, i).kind == inode[i].kind
  }

  /** Kinds stay as they are stored where inode i is stored anew or not at all. */
  lemma KindsKept(sb: Super, b: Image, n: seq<Inode>, b': Image, n': seq<Inode>, i: nat)
    requires StoredKinds(sb, b, n) && i < |n| == |n'| && StoredOthers(sb, b, b', i)
    requires forall j :: 0 <= j < |n| && j != i ==> n'[j].kind == n[j].kind
    requires DInode(sb, b', i) == n'[i] || (DInode(sb, b', i) == DInode(sb, b, i) && n'[i].kind == n[i].kind)
    ensures StoredKinds(sb, b', n')
  {
    hide DecodeInode, DInode;
  }

  /** The stored inodes other than i are the same. */
  ghost predicate StoredOthers(sb: Super, blocks: Image, blocks': Image, i: nat)
  {
    && |blocks'| == |blocks| && sb.inodestart + InodeBlocks(sb.ninodes) <= |blocks|
    && forall j :: 0 <= j < sb.ninodes && j != i ==> DInode(sb, blocks', j) == DInode(sb, blocks, j)
  }

  lemma KeptStored(sb: Super, blocks: Image, blocks': Image, i: nat)
    requires InodesKept(sb, blocks, blocks') && sb.inodestart + InodeBlocks(sb.ninodes) <= sb.bmapstart < |blocks|
    ensures StoredOthers(sb, blocks, blocks', i) && (i < sb.ninodes ==> DInode(sb, blocks', i) == DInode(sb, blocks, i))
  {
    hide DecodeInode;
  }

  /** Storing one inode leaves the others of its block, and all other blocks, as they are. */
  lemma StoreInode(sb: Super, blocks: Image, i: nat, ip: Inode)
    requires i < sb.ninodes && sb.inodestart + InodeBlocks(sb.ninodes) <= |blocks|
    ensures var ib := sb.inodestart + i / IPB;
      var blocks' := blocks[ib := EncodeInode(blocks[ib], i % IPB, ip)];
      DInode(sb, blocks', i) == ip && StoredOthers(sb, blocks, blocks', i)
  {
    hide DecodeInode, EncodeInode;
    var ib := sb.inodestart + i / IPB;
    var blocks' := blocks[ib := EncodeInode(blocks[ib], i % IPB, ip)];
    forall j | 0 <= j < sb.ninodes
      ensures DInode(sb, blocks', j) == if j == i then ip else DInode(sb, blocks, j)
    {
      InodeRoundTrip(blocks[ib], i % IPB, ip, j % IPB);
      if j / IPB == i / IPB && j % IPB == i % IPB {
        assert j == i;
      }
    }
    hide DInode;
  }

  /** No address and no bit of the bitmap depends on the inode blocks. */
  lemma InodeBlockApart(sb: Super, reserved: set<nat>, blocks: Image, inode: seq<Inode>, owner: map<nat, Slot>, ib: nat,
                        x: Sector)
    requires Consistent(sb, reserved, blocks, inode, owner) && sb.inodestart <= ib < sb.bmapstart
    ensures ib < |blocks| && Consistent(sb, reserved, blocks[ib := x], inode, owner)
    ensures SameBytes(blocks, inode, blocks[ib := x], inode) && SameAddrs(blocks, blocks[ib := x], inode)
  {
    hide InUse;
    var blocks' := blocks[ib := x];
    assert ib in reserved;
    SameMarks(sb, blocks, blocks', reserved, owner.Keys + reserved);
    hide Marked, AddrOf;
    FreeIrrelevant(blocks, blocks', inode, owner);
    forall i, k | 0 <= i < |inode| && 0 <= k
      ensures AddrOf(blocks', inode, i, k) == AddrOf(blocks, inode, i, k)
    {
      SameAddr(blocks, blocks', inode, owner, i, k);
    }
  }

  /** A block that is in use afterwards and was not logged was in use before, and is as it was. Blocks that end up free
      need not be logged, whatever was done to them. */
  ghost predicate Carried(reserved: set<nat>, blocks: Image, owner: map<nat, Slot>, blocks': Image,
                          owner': map<nat, Slot>, logged: set<nat>)
  {
    && |blocks'| == |blocks|
    && forall x :: 0 <= x < |blocks| && x !in logged && (x in owner' || x in reserved) ==>
         (x in owner || x in reserved) && blocks'[x] == blocks[x]
  }

  /** A free inode has no blocks and no size. */
  ghost predicate FreeBlank(inode: seq<Inode>)
  {
    forall i :: 0 <= i < |inode| && inode[i].kind == 0 ==>
      inode[i].addrs == Blank(0, 0).addrs && inode[i].size == 0
  }

  lemma CarriedTwice(reserved: set<nat>, b: Image, o: map<nat, Slot>, b': Image, o': map<nat, Slot>, l': set<nat>,
                     b'': Image, o'': map<nat, Slot>, l'': set<nat>)
    requires Carried(reserved, b, o, b', o', l') && Carried(reserved, b', o', b'', o'', l'') && l' <= l''
    ensures Carried(reserved, b, o, b'', o'', l'')
  {
  }

  /** Of the blocks that are never handed out, only inodes and bitmap are logged. */
  ghost predicate Home(sb: Super, reserved: set<nat>, logged: set<nat>)
  {
    forall x :: x in logged ==>
        x < sb.size && (x in reserved ==> sb.inodestart <= x < sb.bmapstart + BitmapBlocks(sb.size))
  }

  /** Of what was not logged, only blocks of inode i differ; and no inode block does. */
  ghost predicate Clears(sb: Super, blocks: Image, blocks': Image, owner: map<nat, Slot>, logged: set<nat>, i: nat)
  {
    && |blocks'| == |blocks|
    && forall x ::
         0 <= x < |blocks|
         && (sb.inodestart <= x < sb.bmapstart || (x !in logged && !(x in owner && owner[x].inum == i))) ==>
           blocks'[x] == blocks[x]
  }

  /** Every address is the same. */
  ghost predicate SameAddrs(blocks: Image, blocks': Image, inode: seq<Inode>)
  {
    forall i, k :: 0 <= i < |inode| && 0 <= k ==> AddrOf(blocks', inode, i, k) == AddrOf(blocks, inode, i, k)
  }

  /** What holds of the files goes on holding when only inode blocks change. */
  lemma AfterIupdate(b0: Image, n0: seq<Inode>, b: Image, b': Image, n: seq<Inode>, l: set<nat>, i: nat, off: nat,
                     end: nat)
    requires i < |n| && SameBytes(b, n, b', n) && SameAddrs(b, b', n) && OthersKept(b0, n0, b, n, i)
           && Covered(b, n, l, i, off, end)
    requires DenseKept(b0, n0, b, n)
    ensures OthersKept(b0, n0, b', n, i) && Covered(b', n, l, i, off, end)
    ensures Contents(b', n, i) == Contents(b, n, i) && DenseKept(b0, n0, b', n)
  {
    hide AddrOf, ByteAt;
  }

  /** Every place keeps its block, and only inode i gains some. */
  ghost predicate Extends(owner: map<nat, Slot>, owner': map<nat, Slot>, i: nat)
  {
    && (forall b :: b in owner ==> b in owner' && owner'[b] == owner[b])
    && (forall b :: b in owner' && b !in owner ==> owner'[b].inum == i)
  }

  /** Inodes differ at most in the block addresses of inode i. */
  ghost predicate SameButAddrs(inode: seq<Inode>, inode': seq<Inode>, i: nat)
    requires i < |inode|
  {
    && |inode'| == |inode| && inode'[i] == inode[i].(addrs := inode'[i].addrs)
    && forall j :: 0 <= j < |inode| && j != i ==> inode'[j] == inode[j]
  }

  /** The address in inode i itself that leads to file block bn: a direct one, or that of the indirect block. */
  function OwnAddr(inode: seq<Inode>, i: nat, bn: nat): nat
    requires i < |inode|
  {
    inode[i].addrs[if bn < NDIRECT then bn else NDIRECT]
  }

  /** Those that lead to bytes lo .. hi are all there. */
  ghost predicate OwnThere(inode: seq<Inode>, i: nat, lo: nat, hi: nat)
    requires i < |inode|
  {
    lo < hi ==> forall bn :: lo / BSIZE <= bn && bn * BSIZE < hi ==> OwnAddr(inode, i, bn) != 0
  }

  /** Only addresses that are missing in inode i are entered. */
  ghost predicate Fills(inode: seq<Inode>, inode': seq<Inode>, i: nat)
    requires i < |inode|
  {
    && SameButAddrs(inode, inode', i)
    && forall k :: 0 <= k <= NDIRECT && inode[i].addrs[k] != 0 ==> inode'[i].addrs[k] == inode[i].addrs[k]
  }

  lemma PutFills(n: seq<Inode>, i: nat, k: nat, b: Word)
    requires i < |n| && b != 0 && (k <= NDIRECT ==> n[i].addrs[k] == 0)
    ensures Fills(n, n, i) && Fills(n, PutInode(n, i, k, b), i)
          && (k <= NDIRECT ==> PutInode(n, i, k, b)[i].addrs[k] == b != n[i].addrs[k])
  {
  }

  /** Addresses that are there stay. */
  ghost predicate AddrsKept(ip: Inode, ip': Inode)
  {
    forall k :: 0 <= k <= NDIRECT && ip.addrs[k] != 0 ==> ip'.addrs[k] == ip.addrs[k]
  }

  lemma AddrsTwice(ip: Inode, ip': Inode, ip'': Inode)
    requires AddrsKept(ip, ip') && AddrsKept(ip', ip'')
    ensures AddrsKept(ip, ip'')
  {
  }

  lemma FillsKept(n: seq<Inode>, n': seq<Inode>, i: nat)
    requires i < |n|
    ensures AddrsKept(n[i], n[i])
    ensures Fills(n, n', i) ==> |n'| == |n| && n'[i] == n[i].(addrs := n'[i].addrs) && AddrsKept(n[i], n'[i])
  {
  }

  lemma FillsTwice(n: seq<Inode>, n': seq<Inode>, n'': seq<Inode>, i: nat)
    requires i < |n| && Fills(n, n', i) && Fills(n', n'', i)
    ensures Fills(n, n'', i)
  {
  }

  lemma OwnNone(n: seq<Inode>, i: nat, off: nat)
    requires i < |n|
    ensures Fills(n, n, i) && OwnThere(n, i, off, off)
  {
  }

  /** In a file without holes all of them are there, up to the size. */
  lemma DenseOwn(b: Image, n: seq<Inode>, i: nat, lo: nat, hi: nat)
    requires i < |n| && Dense(b, n, i) && hi <= n[i].size
    ensures OwnThere(n, i, lo, hi)
  {
    forall bn | lo / BSIZE <= bn && bn * BSIZE < hi
      ensures OwnAddr(n, i, bn) != 0
    {
      assert AddrOf(b, n, i, SlotOf(bn)) != 0;
    }
  }

  /** One block further: the inode is still as it was exactly if nothing had to be entered in it so far. */
  lemma OwnNext(n: seq<Inode>, n': seq<Inode>, n'': seq<Inode>, i: nat, lo: nat, cur: nat, m: nat)
    requires i < |n| && Fills(n, n', i) && Fills(n', n'', i) && lo <= cur && 0 < m && cur % BSIZE + m <= BSIZE
    requires n' == n <==> OwnThere(n, i, lo, cur)
    requires OwnAddr(n'', i, cur / BSIZE) != 0 && (n'' == n' <==> OwnAddr(n', i, cur / BSIZE) != 0)
    ensures Fills(n, n'', i) && (n'' == n <==> OwnThere(n, i, lo, cur + m))
  {
    assert n' != n ==> n'[i].addrs != n[i].addrs;
  }

  /** Passing from one stretch of bytes to the next. */
  lemma OwnTwice(n: seq<Inode>, n': seq<Inode>, n'': seq<Inode>, i: nat, lo: nat, mid: nat, hi: nat)
    requires i < |n| && Fills(n, n', i) && Fills(n', n'', i) && lo <= mid <= hi
    requires n' == n <==> OwnThere(n, i, lo, mid)
    requires n'' == n' <==> OwnThere(n', i, mid, hi)
    ensures Fills(n, n'', i) && (n'' == n <==> OwnThere(n, i, lo, hi))
  {
    assert n' != n ==> n'[i].addrs != n[i].addrs;
    assert n'' != n' ==> n''[i].addrs != n'[i].addrs;
  }

  /** The file system at one moment. */
  datatype Snap = Snap(blocks: Image, inode: seq<Inode>, owner: map<nat, Slot>, logged: set<nat>)

  /** The blocks that files gain are for file blocks lo .. hi, or indirect. */
  ghost predicate Gains(owner: map<nat, Slot>, owner': map<nat, Slot>, lo: nat, hi: nat)
  {
    forall x :: x in owner' && x !in owner ==> owner'[x].k == NDIRECT || SlotOf(lo) <= owner'[x].k < SlotOf(hi)
  }

  lemma GainsTwice(o: map<nat, Slot>, o': map<nat, Slot>, o'': map<nat, Slot>, i: nat, lo: nat, mid: nat, hi: nat)
    requires Extends(o', o'', i) && Gains(o, o', lo, mid) && lo <= mid < hi && Gains(o', o'', mid, hi)
    ensures Gains(o, o'', lo, hi)
  {
  }

  /** What is missing outside of them goes on missing. */
  lemma StillMissing(b: Image, n: seq<Inode>, o: map<nat, Slot>, b': Image, n': seq<Inode>, o': map<nat, Slot>, i: nat,
                     lo: nat, hi: nat, bn: nat)
    requires Owned(b, n, o) && Owned(b', n', o') && Extends(o, o', i) && |n| == |n'| && i < |n|
    requires Gains(o, o', lo, hi) && bn < MAXFILE && !(lo <= bn < hi)
    ensures AddrOf(b', n', i, SlotOf(bn)) == 0 <==> AddrOf(b, n, i, SlotOf(bn)) == 0
  {
    hide AddrOf;
    if AddrOf(b, n, i, SlotOf(bn)) != 0 {
      ExtendsAddr(b, n, o, b', n', o', i, i, SlotOf(bn));
    }
    OnePlace(b', n', o', i, SlotOf(bn), i, SlotOf(bn));
  }

  /** What filling holes among file blocks lo .. hi of inode i may log: the bitmap, the blocks filled in, and the
      indirect block. */
  ghost predicate FillsLog(sb: Super, owner: map<nat, Slot>, owner': map<nat, Slot>, l: set<nat>, l': set<nat>, i: nat,
                           lo: nat, hi: nat)
  {
    forall x :: x in l' && x !in l ==>
      || sb.bmapstart <= x < sb.bmapstart + BitmapBlocks(sb.size)
      || (x in owner' && owner'[x].inum == i
        && if owner'[x].k == NDIRECT then NDIRECT < hi else x !in owner && SlotOf(lo) <= owner'[x].k < SlotOf(hi))
  }

  lemma FillsOnly(sb: Super, o: map<nat, Slot>, o': map<nat, Slot>, l: set<nat>, l': set<nat>, i: nat, lo: nat, hi: nat)
    requires FillsLog(sb, o, o', l, l', i, lo, hi)
    ensures LoggedOnly(sb, o', l, l', i, lo, hi)
  {
  }

  lemma FillsLogTwice(sb: Super, o: map<nat, Slot>, o': map<nat, Slot>, o'': map<nat, Slot>, l: set<nat>, l': set<nat>,
                      l'': set<nat>, i: nat, lo: nat, mid: nat, mid': nat, hi: nat)
    requires Extends(o, o', i) && Extends(o', o'', i) && lo <= mid' && mid <= hi
    requires FillsLog(sb, o, o', l, l', i, lo, mid) && FillsLog(sb, o', o'', l', l'', i, mid', hi)
    ensures FillsLog(sb, o, o'', l, l'', i, lo, hi)
  {
  }

  /** Reading bytes lo .. hi of file i has led from s to t: the holes among their blocks are filled. The inode in memory
      is still the same exactly if it had none of them itself. */
  ghost predicate HolesFilled(sb: Super, s: Snap, t: Snap, i: nat, lo: nat, hi: nat)
    requires i < |s.inode|
  {
    && Fills(s.inode, t.inode, i) && (t.inode == s.inode <==> OwnThere(s.inode, i, lo, hi))
    && Extends(s.owner, t.owner, i) && Covered(t.blocks, t.inode, t.owner.Keys, i, lo, hi)
    && Touches(sb, s.blocks, s.owner, t.blocks, t.owner, t.logged) && s.logged <= t.logged
    && FillsLog(sb, s.owner, t.owner, s.logged, t.logged, i, lo / BSIZE, (hi + BSIZE - 1) / BSIZE)
  }

  /** What bmap logs on a disk with one bitmap block: nothing if the block is there, and else the bitmap, the new block,
      and the indirect block that its address goes to. */
  ghost function MapLogs(sb: Super, missing: bool, addr: nat, table: nat, bn: nat): set<nat>
  {
    if !missing then {} else {sb.bmapstart, addr} + if bn < NDIRECT then {} else {table}
  }

  /** What mapping file block bn of inode i gives to log_write and to files. */
  ghost predicate MapsLog(sb: Super, owner: map<nat, Slot>, owner': map<nat, Slot>, l: set<nat>, l': set<nat>, i: nat,
                          bn: nat, missing: bool, addr: nat, table: nat)
  {
    && FillsLog(sb, owner, owner', l, l', i, bn, bn + 1) && Gains(owner, owner', bn, bn + 1)
    && (sb.size <= BPB ==> l' == l + MapLogs(sb, missing, addr, table, bn))
  }

  lemma FilledNone(sb: Super, s: Snap, i: nat, lo: nat)
    requires i < |s.inode|
    ensures HolesFilled(sb, s, s, i, lo, lo)
  {
  }

  lemma FilledTwice(sb: Super, s: Snap, t: Snap, u: Snap, i: nat, lo: nat, mid: nat, hi: nat)
    requires i < |s.inode| && HolesFilled(sb, s, t, i, lo, mid) && HolesFilled(sb, t, u, i, mid, hi)
    requires Owned(t.blocks, t.inode, t.owner) && Owned(u.blocks, u.inode, u.owner)
    requires lo <= mid <= hi <= MAXFILE * BSIZE
    ensures HolesFilled(sb, s, u, i, lo, hi)
  {
    hide Owned, Fills, OwnThere, Extends, Covered, Touches, FillsLog;
    FillsKept(s.inode, t.inode, i);
    FillsKept(t.inode, u.inode, i);
    OwnTwice(s.inode, t.inode, u.inode, i, lo, mid, hi);
    ExtendsTwice(s.owner, t.owner, u.owner, i);
    CoveredTwice(t.blocks, t.inode, t.owner, u.blocks, u.inode, u.owner, i, lo, mid, hi);
    TouchesTwice(sb, s.blocks, s.owner, t.blocks, t.owner, u.blocks, u.owner, t.logged, u.logged);
    FillsLogTwice(sb, s.owner, t.owner, u.owner, s.logged, t.logged, u.logged, i, lo / BSIZE, (mid + BSIZE - 1) / BSIZE,
                  mid / BSIZE, (hi + BSIZE - 1) / BSIZE);
  }

  lemma ExtendsTwice(o: map<nat, Slot>, o': map<nat, Slot>, o'': map<nat, Slot>, i: nat)
    requires Extends(o, o', i) && Extends(o', o'', i)
    ensures Extends(o, o'', i)
  {
  }

  lemma CoveredTwice(b: Image, n: seq<Inode>, o: map<nat, Slot>, b': Image, n': seq<Inode>, o': map<nat, Slot>, i: nat,
                     lo: nat, mid: nat, hi: nat)
    requires Owned(b, n, o) && Owned(b', n', o') && Extends(o, o', i) && |n| == |n'| && i < |n|
    requires Covered(b, n, o.Keys, i, lo, mid) && Covered(b', n', o'.Keys, i, mid, hi)
    requires lo <= mid <= hi <= MAXFILE * BSIZE
    ensures Covered(b', n', o'.Keys, i, lo, hi)
  {
    hide AddrOf, Owned;
    forall bn | lo < hi && lo / BSIZE <= bn && bn * BSIZE < hi
      ensures AddrOf(b', n', i, SlotOf(bn)) != 0 && AddrOf(b', n', i, SlotOf(bn)) in o'.Keys
    {
      if lo < mid && bn * BSIZE < mid {
        ExtendsAddr(b, n, o, b', n', o', i, i, SlotOf(bn));
      } else {
        assert mid < hi && mid / BSIZE <= bn;
      }
    }
  }

  /** Bytes within one block. */
  lemma FilledBlock(sb: Super, s: Snap, t: Snap, i: nat, off: nat, m: nat)
    requires i < |s.inode| && 0 < m && off % BSIZE + m <= BSIZE && off / BSIZE < MAXFILE
    requires Fills(s.inode, t.inode, i) && Extends(s.owner, t.owner, i) && Owned(t.blocks, t.inode, t.owner)
    requires OwnAddr(t.inode, i, off / BSIZE) != 0 && (t.inode == s.inode <==> OwnAddr(s.inode, i, off / BSIZE) != 0)
    requires AddrOf(t.blocks, t.inode, i, SlotOf(off / BSIZE)) != 0
    requires Touches(sb, s.blocks, s.owner, t.blocks, t.owner, t.logged) && s.logged <= t.logged
    requires FillsLog(sb, s.owner, t.owner, s.logged, t.logged, i, off / BSIZE, off / BSIZE + 1)
    ensures HolesFilled(sb, s, t, i, off, off + m)
  {
    hide AddrOf, Fills, Extends, Touches, FillsLog;
    FillsKept(s.inode, t.inode, i);
    OnePlace(t.blocks, t.inode, t.owner, i, SlotOf(off / BSIZE), i, SlotOf(off / BSIZE));
    assert (off + m + BSIZE - 1) / BSIZE == off / BSIZE + 1;
  }

  /** File i holds part at off instead of what was there; every other byte of every file is as it was. */
  ghost predicate Stored(blocks: Image, inode: seq<Inode>, blocks': Image, inode': seq<Inode>, i: nat, off: nat,
                         part: seq<Byte>)
  {
    && |inode'| == |inode|
    && forall j, p :: 0 <= j < |inode| && 0 <= p ==>
         ByteAt(blocks', inode', j, p) == if j == i && off <= p < off + |part| then part[p - off]
             else ByteAt(blocks, inode, j, p)
  }

  lemma StoredThen(b: Image, n: seq<Inode>, b': Image, n': seq<Inode>, b'': Image, n'': seq<Inode>, i: nat, off: nat,
                   src: seq<Byte>, tot: nat, m: nat)
    requires tot + m <= |src|
    requires Stored(b, n, b', n', i, off, src[..tot]) && Stored(b', n', b'', n'', i, off + tot, src[tot..tot + m])
    ensures Stored(b, n, b'', n'', i, off, src[..tot + m])
  {
  }

  lemma StoredAfter(b: Image, n: seq<Inode>, b': Image, n': seq<Inode>, b'': Image, n'': seq<Inode>, i: nat, off: nat,
                    part: seq<Byte>)
    requires SameBytes(b, n, b', n') && Stored(b', n', b'', n'', i, off, part)
    ensures Stored(b, n, b'', n'', i, off, part)
  {
    hide ByteAt;
  }

  /** A byte array with src stored at off, which is not past its end. */
  function Splice(c: seq<Byte>, off: nat, src: seq<Byte>): (r: seq<Byte>)
    requires off <= |c|
    ensures |r| == Max(|c|, off + |src|)
  {
    c[..off] + src + (if off + |src| < |c| then c[off + |src|..] else [])
  }

  function Max(a: nat, b: nat): nat
  {
    if a < b then b else a
  }

  /** Only the addresses of an inode say where its blocks are. */
  lemma MetaOnly(blocks: Image, inode: seq<Inode>, owner: map<nat, Slot>, i: nat, ip: Inode)
    requires i < |inode| && Owned(blocks, inode, owner) && ip.addrs == inode[i].addrs
    ensures var inode' := inode[i := ip];
      && Owned(blocks, inode', owner)
      && (forall j, k :: 0 <= j < |inode| && 0 <= k ==> AddrOf(blocks, inode', j, k) == AddrOf(blocks, inode, j, k))
      && SameBytes(blocks, inode, blocks, inode')
  {
    var inode' := inode[i := ip];
    assert forall j, k :: 0 <= j < |inode| && 0 <= k ==> AddrOf(blocks, inode', j, k) == AddrOf(blocks, inode, j, k);
    hide AddrOf;
  }

  /** The bytes that file i ends up with are a splice, and no other file changes. */
  lemma StoredContents(b: Image, n: seq<Inode>, b': Image, n': seq<Inode>, i: nat, off: nat, src: seq<Byte>)
    requires i < |n| && Stored(b, n, b', n', i, off, src) && off <= n[i].size
           && n'[i].size == Max(n[i].size, off + |src|)
    ensures Contents(b', n', i) == Splice(Contents(b, n, i), off, src)
    ensures forall j :: 0 <= j < |n| && j != i && n'[j].size == n[j].size ==> Contents(b', n', j) == Contents(b, n, j)
  {
    hide ByteAt;
  }

  /** What is extended keeps its addresses. */
  lemma ExtendsAddr(b: Image, n: seq<Inode>, o: map<nat, Slot>, b': Image, n': seq<Inode>, o': map<nat, Slot>, i: nat,
                    j: nat, k: nat)
    requires Owned(b, n, o) && Owned(b', n', o') && Extends(o, o', i) && |n| == |n'| && j < |n| && k < NSLOTS
    requires AddrOf(b, n, j, k) != 0
    ensures AddrOf(b', n', j, k) == AddrOf(b, n, j, k)
  {
    hide AddrOf;
    OnePlace(b, n, o, j, k, j, k);
  }

  /** The bit of b cleared. */
  function Released(sb: Super, blocks: Image, b: nat): (r: Image)
    requires b < |blocks| && sb.bmapstart + b / BPB < |blocks|
  {
    var bb := sb.bmapstart + b / BPB;
    blocks[bb := ClearAt(blocks[bb], b % BPB)]
  }

  lemma MarkedMinus(sb: Super, reserved: set<nat>, blocks: Image, used: set<nat>, b: nat)
    requires Layout(sb, reserved, blocks) && Marked(sb, blocks, used) && b < |blocks|
    ensures Marked(sb, Released(sb, blocks, b), used - {b})
  {
    forall c | 0 <= c < |blocks|
      ensures InUse(Released(sb, blocks, b), sb.bmapstart, c) <==> c in used - {b}
    {
      ClearInUse(blocks, sb.bmapstart, b, c);
    }
  }

  /** Exactly the blocks in gone are no longer in use. */
  ghost predicate Freed(sb: Super, blocks: Image, blocks': Image, gone: set<nat>)
  {
    && |blocks'| == |blocks|
    && forall b :: 0 <= b < |blocks| ==>
         && sb.bmapstart + b / BPB < |blocks|
         && (InUse(blocks', sb.bmapstart, b) <==> InUse(blocks, sb.bmapstart, b) && b !in gone)
  }

  /** No byte of a file other than i differs. */
  ghost predicate SameOthers(blocks: Image, inode: seq<Inode>, blocks': Image, inode': seq<Inode>, i: nat)
  {
    && |inode| == |inode'|
    && forall j, p :: 0 <= j < |inode| && j != i && 0 <= p ==>
        ByteAt(blocks', inode', j, p) == ByteAt(blocks, inode, j, p)
  }

  lemma SameOthersTwice(b: Image, n: seq<Inode>, b': Image, n': seq<Inode>, b'': Image, n'': seq<Inode>, i: nat)
    requires SameOthers(b, n, b', n', i) && SameOthers(b', n', b'', n'', i)
    ensures SameOthers(b, n, b'', n'', i)
  {
    hide ByteAt;
  }

  /** Files other than i have the contents they had. */
  ghost predicate OthersKept(b: Image, n: seq<Inode>, b': Image, n': seq<Inode>, i: nat)
  {
    && |n'| == |n|
    && forall j :: 0 <= j < |n| && j != i ==> n'[j] == n[j] && Contents(b', n', j) == Contents(b, n, j)
  }

  ghost predicate BitmapOnly(sb: Super, logged: set<nat>, logged': set<nat>)
  {
    forall x :: x in logged' ==> x in logged || sb.bmapstart <= x < sb.bmapstart + BitmapBlocks(sb.size)
  }

  /** What storing to file blocks lo .. hi of inode i may log: the bitmap, the indirect block, and those blocks. */
  ghost predicate MayLog(sb: Super, owner: map<nat, Slot>, x: nat, i: nat, lo: nat, hi: nat)
  {
    || sb.bmapstart <= x < sb.bmapstart + BitmapBlocks(sb.size)
    || (x in owner && owner[x].inum == i
      && (if owner[x].k == NDIRECT then NDIRECT < hi else SlotOf(lo) <= owner[x].k < SlotOf(hi)))
  }

  ghost predicate LoggedOnly(sb: Super, owner: map<nat, Slot>, logged: set<nat>, logged': set<nat>, i: nat, lo: nat,
                             hi: nat)
  {
    forall x :: x in logged' ==> x in logged || MayLog(sb, owner, x, i, lo, hi)
  }

  lemma LoggedNext(sb: Super, owner: map<nat, Slot>, owner': map<nat, Slot>, l: set<nat>, l': set<nat>, l'': set<nat>,
                   i: nat, lo: nat, cur: nat, m: nat)
    requires Extends(owner, owner', i) && lo <= cur && 0 < m && cur % BSIZE + m <= BSIZE
    requires LoggedOnly(sb, owner, l, l', i, lo / BSIZE, (cur + BSIZE - 1) / BSIZE)
    requires LoggedOnly(sb, owner', l', l'', i, cur / BSIZE, cur / BSIZE + 1)
    ensures LoggedOnly(sb, owner', l, l'', i, lo / BSIZE, (cur + m + BSIZE - 1) / BSIZE)
  {
    assert (cur + m + BSIZE - 1) / BSIZE >= cur / BSIZE + 1;
  }

  /** Every block of file i that bytes lo .. hi touch is there and logged. */
  ghost predicate Covered(blocks: Image, inode: seq<Inode>, logged: set<nat>, i: nat, lo: nat, hi: nat)
    requires i < |inode|
  {
    lo < hi ==> forall bn :: lo / BSIZE <= bn && bn * BSIZE < hi ==>
      AddrOf(blocks, inode, i, SlotOf(bn)) != 0 && AddrOf(blocks, inode, i, SlotOf(bn)) in logged
  }

  lemma CoveredNext(b: Image, n: seq<Inode>, o: map<nat, Slot>, l: set<nat>, b': Image, n': seq<Inode>,
                    o': map<nat, Slot>, l': set<nat>, i: nat, lo: nat, cur: nat, m: nat)
    requires Owned(b, n, o) && Owned(b', n', o') && Extends(o, o', i) && |n| == |n'| && i < |n|
    requires lo <= cur && Covered(b, n, l, i, lo, cur) && cur % BSIZE + m <= BSIZE && cur + m <= MAXFILE * BSIZE
           && l <= l'
    requires AddrOf(b', n', i, SlotOf(cur / BSIZE)) != 0 && AddrOf(b', n', i, SlotOf(cur / BSIZE)) in l'
    ensures Covered(b', n', l', i, lo, cur + m)
  {
    hide AddrOf, Owned;
    forall bn | lo / BSIZE <= bn && bn * BSIZE < cur + m
      ensures AddrOf(b', n', i, SlotOf(bn)) != 0 && AddrOf(b', n', i, SlotOf(bn)) in l'
    {
      if bn != cur / BSIZE {
        ExtendsAddr(b, n, o, b', n', o', i, i, SlotOf(bn));
      }
    }
  }

  lemma CoveredMore(b: Image, n: seq<Inode>, l: set<nat>, l': set<nat>, i: nat, lo: nat, hi: nat)
    requires i < |n| && Covered(b, n, l, i, lo, hi) && l <= l'
    ensures Covered(b, n, l', i, lo, hi)
  {
    hide AddrOf;
  }

  lemma WriteStart(sb: Super, b: Image, n: seq<Inode>, o: map<nat, Slot>, l: set<nat>, i: nat, off: nat, src: seq<Byte>)
    requires i < |n|
    ensures SameButAddrs(n, n, i) && Extends(o, o, i) && Stored(b, n, b, n, i, off, src[..0])
          && Covered(b, n, l, i, off, off)
    ensures LoggedOnly(sb, o, l, l, i, off / BSIZE, (off + BSIZE - 1) / BSIZE)
  {
  }

  lemma NextSame(n: seq<Inode>, o: map<nat, Slot>, n': seq<Inode>, o': map<nat, Slot>, n'': seq<Inode>,
                 o'': map<nat, Slot>, i: nat)
    requires i < |n| && SameButAddrs(n, n', i) && SameButAddrs(n', n'', i) && Extends(o, o', i) && Extends(o', o'', i)
    ensures SameButAddrs(n, n'', i) && Extends(o, o'', i)
  {
  }

  /** A block that was there below the size is still there. */
  lemma StillDense(b: Image, n: seq<Inode>, o: map<nat, Slot>, b': Image, n': seq<Inode>, o': map<nat, Slot>, i: nat,
                   off: nat)
    requires Owned(b, n, o) && Owned(b', n', o') && Extends(o, o', i) && |n| == |n'| && i < |n| && off < MAXFILE * BSIZE
    ensures Dense(b, n, i) && off < n[i].size ==> AddrOf(b', n', i, SlotOf(off / BSIZE)) != 0
  {
    hide AddrOf, Owned;
    if Dense(b, n, i) && off < n[i].size {
      ExtendsAddr(b, n, o, b', n', o', i, i, SlotOf(off / BSIZE));
    }
  }

  /** max in filewrite: half of what is left of the log size less four, in blocks. */
  const CHUNK: nat := (LOGSIZE - 4) / 2 * BSIZE

  /** ToDevice is where a device's own function takes over. */
  datatype FileResult = NotWritable | ToDevice | Panic | Wrote(n: nat)

  /** Splicing in one piece after another is splicing in both. */
  lemma SpliceTwice(c: seq<Byte>, off: nat, src: seq<Byte>, k: nat, m: nat)
    requires off <= |c| && k + m <= |src|
    ensures Splice(Splice(c, off, src[..k]), off + k, src[k..k + m]) == Splice(c, off, src[..k + m])
    ensures Splice(c, off, src[..0]) == c
  {
  }

  lemma SpliceLength(c: seq<Byte>, off: nat, src: seq<Byte>)
    ensures off <= |c| ==> off + |src| <= |Splice(c, off, src)|
  {
  }

  /** The addresses of file blocks lo .. hi. */
  ghost function FileBlocks(blocks: Image, inode: seq<Inode>, i: nat, lo: nat, hi: nat): set<nat>
    requires i < |inode|
    decreases hi - lo
  {
    if lo >= hi then {} else FileBlocks(blocks, inode, i, lo + 1, hi) + {AddrOf(blocks, inode, i, SlotOf(lo))}
  }

  lemma {:induction false} FileBlocksCount(blocks: Image, inode: seq<Inode>, i: nat, lo: nat, hi: nat)
    requires i < |inode|
    ensures |FileBlocks(blocks, inode, i, lo, hi)| <= if lo < hi then hi - lo else 0
    ensures forall bn :: lo <= bn < hi ==> AddrOf(blocks, inode, i, SlotOf(bn)) in FileBlocks(blocks, inode, i, lo, hi)
    decreases hi - lo
  {
    if lo < hi {
      FileBlocksCount(blocks, inode, i, lo + 1, hi);
      hide AddrOf;
    }
  }

  /** Blocks that are there are all different. */
  lemma {:induction false} FileBlocksDistinct(blocks: Image, inode: seq<Inode>, owner: map<nat, Slot>, logged: set<nat>,
                                      i: nat, lo: nat, hi: nat)
    requires i < |inode| && Owned(blocks, inode, owner) && lo <= hi <= MAXFILE
    requires forall bn :: lo <= bn < hi ==>
        AddrOf(blocks, inode, i, SlotOf(bn)) != 0 && AddrOf(blocks, inode, i, SlotOf(bn)) in logged
    ensures |FileBlocks(blocks, inode, i, lo, hi)| == hi - lo && FileBlocks(blocks, inode, i, lo, hi) <= logged
    ensures forall b :: b in FileBlocks(blocks, inode, i, lo, hi) ==>
        b in owner && SlotOf(lo) <= owner[b].k && owner[b].k != NDIRECT
    decreases hi - lo
  {
    hide AddrOf, Owned;
    if lo < hi {
      FileBlocksDistinct(blocks, inode, owner, logged, i, lo + 1, hi);
      OnePlace(blocks, inode, owner, i, SlotOf(lo), i, SlotOf(lo));
      var rest, a := FileBlocks(blocks, inode, i, lo + 1, hi), AddrOf(blocks, inode, i, SlotOf(lo));
      assert FileBlocks(blocks, inode, i, lo, hi) == rest + {a} && a !in rest;
    }
  }

  lemma {:induction false} FileBlocksNext(blocks: Image, inode: seq<Inode>, i: nat, lo: nat, hi: nat)
    requires i < |inode| && lo <= hi
    ensures FileBlocks(blocks, inode, i, lo, hi + 1)
          == FileBlocks(blocks, inode, i, lo, hi) + {AddrOf(blocks, inode, i, SlotOf(hi))}
    decreases hi - lo
  {
    hide AddrOf;
    if lo < hi {
      FileBlocksNext(blocks, inode, i, lo + 1, hi);
    }
  }

  lemma {:induction false} FileBlocksSame(b: Image, n: seq<Inode>, b': Image, n': seq<Inode>, i: nat, lo: nat, hi: nat)
    requires i < |n| == |n'|
    requires forall bn :: lo <= bn < hi ==> AddrOf(b', n', i, SlotOf(bn)) == AddrOf(b, n, i, SlotOf(bn))
    ensures FileBlocks(b', n', i, lo, hi) == FileBlocks(b, n, i, lo, hi)
    decreases hi - lo
  {
    hide AddrOf;
    if lo < hi {
      FileBlocksSame(b, n, b', n', i, lo + 1, hi);
    }
  }

  /** One of file blocks lo .. hi of inode i is missing. */
  ghost predicate Missing(blocks: Image, inode: seq<Inode>, i: nat, lo: nat, hi: nat)
    requires i < |inode|
  {
    exists bn :: lo <= bn < hi && AddrOf(blocks, inode, i, SlotOf(bn)) == 0
  }

  /** What writing file blocks lo .. hi of inode i logs on a disk with one bitmap block: those blocks, the bitmap if one
      of them was missing before, the indirect block if one of its entries was. */
  ghost function WriteLogs(sb: Super, s: Snap, t: Snap, i: nat, lo: nat, hi: nat): set<nat>
    requires i < |s.inode| == |t.inode|
  {
    FileBlocks(t.blocks, t.inode, i, lo, hi)
    + (if Missing(s.blocks, s.inode, i, lo, hi) then {sb.bmapstart} else {})
    + (if Missing(s.blocks, s.inode, i, Max(lo, NDIRECT), hi) then {t.inode[i].addrs[NDIRECT] as nat} else {})
  }

  /** The file block after the last one that len bytes from off on touch. */
  function EndBlock(off: nat, len: nat): nat
  {
    if len == 0 then off / BSIZE else (off + len + BSIZE - 1) / BSIZE
  }

  /** Writing len bytes at off has led from s to t, as to blocks gained and logged. */
  ghost predicate WroteLogs(sb: Super, s: Snap, t: Snap, i: nat, off: nat, len: nat)
    requires i < |s.inode|
  {
    && |t.inode| == |s.inode| && Gains(s.owner, t.owner, off / BSIZE, EndBlock(off, len))
    && (sb.size <= BPB ==> t.logged == s.logged + WriteLogs(sb, s, t, i, off / BSIZE, EndBlock(off, len)))
  }

  lemma WroteNone(sb: Super, s: Snap, i: nat, off: nat)
    requires i < |s.inode|
    ensures WroteLogs(sb, s, s, i, off, 0)
  {
  }

  /** What one block adds to it. */
  lemma WriteLogsNext(sb: Super, s: Snap, t: Snap, u: Snap, i: nat, lo: nat, k: nat)
    requires i < |s.inode| == |t.inode| == |u.inode| && lo <= k
    requires forall bn :: lo <= bn < k ==>
        AddrOf(u.blocks, u.inode, i, SlotOf(bn)) == AddrOf(t.blocks, t.inode, i, SlotOf(bn))
    requires Missing(s.blocks, s.inode, i, Max(lo, NDIRECT), k) ==>
        u.inode[i].addrs[NDIRECT] == t.inode[i].addrs[NDIRECT]
    ensures var a, missing := AddrOf(u.blocks, u.inode, i, SlotOf(k)), AddrOf(s.blocks, s.inode, i, SlotOf(k)) == 0;
      WriteLogs(sb, s, u, i, lo, k + 1)
        == WriteLogs(sb, s, t, i, lo, k) + MapLogs(sb, missing, a, u.inode[i].addrs[NDIRECT], k) + {a}
  {
    FileBlocksSame(t.blocks, t.inode, u.blocks, u.inode, i, lo, k);
    FileBlocksNext(u.blocks, u.inode, i, lo, k);
    MissingNext(s.blocks, s.inode, i, lo, k);
    if NDIRECT <= k {
      MissingNext(s.blocks, s.inode, i, Max(lo, NDIRECT), k);
    }
    hide FileBlocks, Missing, AddrOf;
    if k < NDIRECT {
      NoneMissing(s.blocks, s.inode, i, NDIRECT, k + 1);
    }
  }

  /** An inode block more or less is nothing to them. */
  lemma SameWriteLogs(sb: Super, s: Snap, t: Snap, u: Snap, i: nat, lo: nat, hi: nat)
    requires i < |s.inode| == |t.inode| == |u.inode| && u.inode[i].addrs == t.inode[i].addrs
    requires SameAddrs(t.blocks, u.blocks, u.inode)
    ensures WriteLogs(sb, s, u, i, lo, hi) == WriteLogs(sb, s, t, i, lo, hi)
  {
    assert forall k :: 0 <= k ==> AddrOf(t.blocks, u.inode, i, k) == AddrOf(t.blocks, t.inode, i, k);
    hide AddrOf, Missing;
    FileBlocksSame(t.blocks, t.inode, u.blocks, u.inode, i, lo, hi);
  }

  lemma WroteNext(sb: Super, s: Snap, t: Snap, u: Snap, i: nat, off: nat, len: nat, m: nat)
    requires i < |s.inode| == |t.inode| == |u.inode| && WroteLogs(sb, s, t, i, off, len)
    requires Owned(s.blocks, s.inode, s.owner) && Owned(t.blocks, t.inode, t.owner) && Owned(u.blocks, u.inode, u.owner)
    requires Extends(s.owner, t.owner, i) && Extends(t.owner, u.owner, i) && Fills(t.inode, u.inode, i)
    requires Covered(t.blocks, t.inode, t.logged, i, off, off + len) && (len == 0 || (off + len) % BSIZE == 0)
    requires 0 < m && (off + len) % BSIZE + m <= BSIZE && off + len + m <= MAXFILE * BSIZE
    requires BlockWritten(sb, t, u, i, (off + len) / BSIZE)
    ensures WroteLogs(sb, s, u, i, off, len + m)
  {
    hide Extends, Owned, WriteLogs, MapLogs, Covered, Fills, AddrOf, Missing, Gains;
    var lo, k := off / BSIZE, (off + len) / BSIZE;
    EndNext(off, len, m);
    CoveredSame(t, u, i, off, len);
    if Missing(s.blocks, s.inode, i, Max(lo, NDIRECT), k) {
      MissingSome(s.blocks, s.inode, i, Max(lo, NDIRECT), k);
      TableKept(t, u, i, lo, k);
    }
    GainsTwice(s.owner, t.owner, u.owner, i, lo, k, k + 1);
    StillMissing(s.blocks, s.inode, s.owner, t.blocks, t.inode, t.owner, i, lo, k, k);
    WriteLogsNext(sb, s, t, u, i, lo, k);
  }

  lemma EndNext(off: nat, len: nat, m: nat)
    requires (len == 0 || (off + len) % BSIZE == 0) && 0 < m && (off + len) % BSIZE + m <= BSIZE
    ensures (off + len) / BSIZE == EndBlock(off, len) && EndBlock(off, len + m) == EndBlock(off, len) + 1
    ensures off / BSIZE <= EndBlock(off, len)
    ensures off + len + m <= MAXFILE * BSIZE ==> EndBlock(off, len) < MAXFILE
  {
  }

  lemma MissingSome(b: Image, n: seq<Inode>, i: nat, lo: nat, k: nat)
    requires i < |n| && Missing(b, n, i, lo, k)
    ensures lo < k
  {
    hide AddrOf;
  }

  /** Blocks written before are still where they were. */
  lemma CoveredSame(t: Snap, u: Snap, i: nat, off: nat, len: nat)
    requires i < |t.inode| == |u.inode| && Owned(t.blocks, t.inode, t.owner) && Owned(u.blocks, u.inode, u.owner)
    requires Extends(t.owner, u.owner, i) && Covered(t.blocks, t.inode, t.logged, i, off, off + len)
    requires off + len <= MAXFILE * BSIZE
    ensures forall bn :: off / BSIZE <= bn < EndBlock(off, len) ==>
        AddrOf(u.blocks, u.inode, i, SlotOf(bn)) == AddrOf(t.blocks, t.inode, i, SlotOf(bn)) != 0
  {
    hide AddrOf, Extends, Owned;
    forall bn | off / BSIZE <= bn < EndBlock(off, len)
      ensures AddrOf(u.blocks, u.inode, i, SlotOf(bn)) == AddrOf(t.blocks, t.inode, i, SlotOf(bn)) != 0
    {
      assert bn * BSIZE < off + len;
      ExtendsAddr(t.blocks, t.inode, t.owner, u.blocks, u.inode, u.owner, i, i, SlotOf(bn));
    }
  }

  lemma TableKept(t: Snap, u: Snap, i: nat, lo: nat, k: nat)
    requires i < |t.inode| && Fills(t.inode, u.inode, i) && lo < k && NDIRECT < k
    requires forall bn :: lo <= bn < k ==> AddrOf(t.blocks, t.inode, i, SlotOf(bn)) != 0
    ensures i < |u.inode| && u.inode[i].addrs[NDIRECT] == t.inode[i].addrs[NDIRECT]
  {
    assert AddrOf(t.blocks, t.inode, i, SlotOf(k - 1)) != 0;
  }

  /** Writing to file block bn has led from t to u. */
  ghost predicate BlockWritten(sb: Super, t: Snap, u: Snap, i: nat, bn: nat)
    requires i < |t.inode| == |u.inode|
  {
    && Gains(t.owner, u.owner, bn, bn + 1)
    && (sb.size <= BPB ==>
      var a := AddrOf(u.blocks, u.inode, i, SlotOf(bn));
      u.logged
        == t.logged + MapLogs(sb, AddrOf(t.blocks, t.inode, i, SlotOf(bn)) == 0, a, u.inode[i].addrs[NDIRECT], bn)
             + {a})
  }

  /** Blocks of which there are so many more: the inode's if the file grows, the bitmap, the indirect block. */
  lemma WriteCount(sb: Super, reserved: set<nat>, s: Snap, t: Snap, i: nat, lo: nat, hi: nat, grows: bool)
    requires Consistent(sb, reserved, t.blocks, t.inode, t.owner) && i < |s.inode| == |t.inode| == sb.ninodes
    requires lo <= hi <= MAXFILE && forall bn :: lo <= bn < hi ==> AddrOf(t.blocks, t.inode, i, SlotOf(bn)) != 0
    ensures |WriteLogs(sb, s, t, i, lo, hi) + (if grows then {sb.inodestart + i / IPB} else {})|
         == hi - lo + (if grows then 1 else 0) + (if Missing(s.blocks, s.inode, i, lo, hi) then 1 else 0)
              + (if Missing(s.blocks, s.inode, i, Max(lo, NDIRECT), hi) then 1 else 0)
  {
    hide AddrOf, Marked, Sizes, FileBlocks;
    var data, table := FileBlocks(t.blocks, t.inode, i, lo, hi), t.inode[i].addrs[NDIRECT] as nat;
    FileBlocksCount(t.blocks, t.inode, i, lo, hi);
    FileBlocksDistinct(t.blocks, t.inode, t.owner, data, i, lo, hi);
    hide Owned;
    var missing, entry := Missing(s.blocks, s.inode, i, lo, hi), Missing(s.blocks, s.inode, i, Max(lo, NDIRECT), hi);
    if entry {
      MissingSome(s.blocks, s.inode, i, Max(lo, NDIRECT), hi);
      TableOwned(t, i, hi);
    }
    hide Missing;
    assert sb.inodestart + i / IPB in reserved && sb.bmapstart in reserved;
    CountThree(data, sb.inodestart + i / IPB, sb.bmapstart, table, grows, missing, entry);
  }

  lemma TableOwned(t: Snap, i: nat, hi: nat)
    requires i < |t.inode| && Owned(t.blocks, t.inode, t.owner) && NDIRECT < hi <= MAXFILE
    requires AddrOf(t.blocks, t.inode, i, SlotOf(hi - 1)) != 0
    ensures var table := t.inode[i].addrs[NDIRECT] as nat; table in t.owner && t.owner[table].k == NDIRECT
  {
    assert t.inode[i].addrs[NDIRECT] != 0;
    hide AddrOf;
    EntryAddr(t.blocks, t.inode, t.owner, i, 0);
  }

  lemma CountThree(data: set<nat>, a: nat, b: nat, c: nat, withA: bool, withB: bool, withC: bool)
    requires a !in data && b !in data && a != b && (withC ==> c !in data && c != a && c != b)
    ensures |data + (if withB then {b} else {}) + (if withC then {c} else {}) + (if withA then {a} else {})|
         == |data| + (if withA then 1 else 0) + (if withB then 1 else 0) + (if withC then 1 else 0)
  {
  }

  lemma MissingNext(b: Image, n: seq<Inode>, i: nat, lo: nat, k: nat)
    requires i < |n| && lo <= k
    ensures Missing(b, n, i, lo, k + 1) <==> Missing(b, n, i, lo, k) || AddrOf(b, n, i, SlotOf(k)) == 0
  {
    hide AddrOf;
  }

  lemma NoneMissing(b: Image, n: seq<Inode>, i: nat, lo: nat, k: nat)
    requires i < |n| && k <= lo
    ensures !Missing(b, n, i, lo, k)
  {
    hide AddrOf;
  }

  /** What writing inside file block bn of inode i may log where there is one bitmap block. */
  ghost function WriteSet(sb: Super, blocks: Image, inode: seq<Inode>, i: nat, bn: nat): set<nat>
    requires i < |inode|
  {
    {sb.bmapstart, sb.inodestart + i / IPB, AddrOf(blocks, inode, i, SlotOf(bn))}
    + if bn < NDIRECT then {} else {inode[i].addrs[NDIRECT] as nat}
  }

  lemma LoggedInSet(sb: Super, blocks: Image, inode: seq<Inode>, owner: map<nat, Slot>, l: set<nat>, l': set<nat>,
                    i: nat, bn: nat)
    requires i < |inode| && Owned(blocks, inode, owner) && sb.size <= BPB && bn < MAXFILE
    requires LoggedOnly(sb, owner, l + {sb.inodestart + i / IPB}, l', i, bn, bn + 1)
    ensures l' <= l + WriteSet(sb, blocks, inode, i, bn)
  {
    hide AddrOf, Owned;
    forall x | x in l' && x !in l
      ensures x in WriteSet(sb, blocks, inode, i, bn)
    {
      if x != sb.inodestart + i / IPB {
        MayLogIn(sb, blocks, inode, owner, x, i, bn);
      }
    }
  }

  lemma MayLogIn(sb: Super, blocks: Image, inode: seq<Inode>, owner: map<nat, Slot>, x: nat, i: nat, bn: nat)
    requires i < |inode| && Owned(blocks, inode, owner) && sb.size <= BPB && MayLog(sb, owner, x, i, bn, bn + 1)
    ensures x in WriteSet(sb, blocks, inode, i, bn)
  {
    assert BitmapBlocks(sb.size) <= 1;
    DirectAddr(blocks, inode, i, NDIRECT);
    hide AddrOf;
  }

  lemma WriteSetSize(sb: Super, blocks: Image, inode: seq<Inode>, i: nat, bn: nat)
    requires i < |inode|
    ensures |WriteSet(sb, blocks, inode, i, bn)| <= 4
  {
    hide AddrOf;
  }

  /** The number of blocks that a write of len bytes at off logs on a disk with one bitmap block. */
  ghost function WriteSize(blocks: Image, inode: seq<Inode>, i: nat, off: nat, len: nat): nat
    requires i < |inode|
  {
    var lo, hi := off / BSIZE, EndBlock(off, len);
    (if lo < hi then hi - lo else 0) + (if off + len > inode[i].size then 1 else 0)
    + (if Missing(blocks, inode, i, lo, hi) then 1 else 0)
    + (if Missing(blocks, inode, i, Max(lo, NDIRECT), hi) then 1 else 0)
  }

  /** As a transaction of its own it logs exactly that many. */
  lemma WriteSizeExact(sb: Super, reserved: set<nat>, s: Snap, t: Snap, i: nat, off: nat, len: nat)
    requires Consistent(sb, reserved, t.blocks, t.inode, t.owner) && i < |s.inode| == |t.inode| == sb.ninodes
    requires off + len <= MAXFILE * BSIZE && 0 < len
    requires Covered(t.blocks, t.inode, t.logged, i, off, off + len)
    requires t.logged == {} + WriteLogs(sb, s, t, i, off / BSIZE, EndBlock(off, len))
                         + (if off + len > s.inode[i].size then {sb.inodestart + i / IPB} else {})
    ensures |t.logged| == WriteSize(s.blocks, s.inode, i, off, len)
  {
    hide Consistent, AddrOf, WriteLogs, Missing;
    var lo, hi, grows := off / BSIZE, EndBlock(off, len), off + len > s.inode[i].size;
    CoveredBlocks(t.blocks, t.inode, t.logged, i, off, off + len, hi);
    WriteCount(sb, reserved, s, t, i, lo, hi, grows);
    assert t.logged == WriteLogs(sb, s, t, i, lo, hi) + (if grows then {sb.inodestart + i / IPB} else {});
  }

  /** Which writes keep to what begin_op reserves: never more than three blocks besides those touched, so one that
      touches seven does, and 3073 bytes touch no more than seven wherever they start; a full chunk touches at least
      thirteen. */
  lemma WriteSizeBounds(blocks: Image, inode: seq<Inode>, i: nat, off: nat, len: nat)
    requires i < |inode| && 0 < len
    ensures EndBlock(off, len) <= off / BSIZE + 7 ==> WriteSize(blocks, inode, i, off, len) <= MAXOPBLOCKS
    ensures len <= 6 * BSIZE + 1 ==> WriteSize(blocks, inode, i, off, len) <= MAXOPBLOCKS
    ensures EndBlock(off, len) > off / BSIZE + MAXOPBLOCKS ==> WriteSize(blocks, inode, i, off, len) > MAXOPBLOCKS
    ensures len <= CHUNK ==> WriteSize(blocks, inode, i, off, len) <= 17
    ensures len == CHUNK ==> WriteSize(blocks, inode, i, off, len) >= 13
  {
    hide Missing;
    var lo, hi := off / BSIZE, EndBlock(off, len);
    assert len <= 6 * BSIZE + 1 ==> hi <= lo + 7;
    assert len <= CHUNK ==> hi <= lo + 14;
    assert len == CHUNK ==> hi >= lo + 13;
  }

  lemma CoveredBlocks(blocks: Image, inode: seq<Inode>, logged: set<nat>, i: nat, lo: nat, hi: nat, k: nat)
    requires i < |inode| && Covered(blocks, inode, logged, i, lo, hi) && (k - 1) * BSIZE < hi && lo < hi
    ensures forall bn :: lo / BSIZE <= bn < k ==>
              AddrOf(blocks, inode, i, SlotOf(bn)) != 0 && AddrOf(blocks, inode, i, SlotOf(bn)) in logged
  {
    hide AddrOf;
  }

  lemma AtLeastThirteen(blocks: Image, inode: seq<Inode>, owner: map<nat, Slot>, logged: set<nat>, i: nat, off: nat,
                        n: nat)
    requires i < |inode| && Owned(blocks, inode, owner) && off + n <= MAXFILE * BSIZE
           && Covered(blocks, inode, logged, i, off, off + n)
    ensures n == CHUNK ==> |logged| >= 13
  {
    if n == CHUNK {
      var lo := off / BSIZE;
      var hi := lo + 13;
      CoveredBlocks(blocks, inode, logged, i, off, off + n, hi);
      hide AddrOf, Owned, FileBlocks, Covered;
      FileBlocksDistinct(blocks, inode, owner, logged, i, lo, hi);
      SubsetSize(FileBlocks(blocks, inode, i, lo, hi), logged);
    }
  }

  lemma DirectAddr(blocks: Image, inode: seq<Inode>, i: nat, k: nat)
    requires i < |inode| && k <= NDIRECT
    ensures AddrOf(blocks, inode, i, k) == inode[i].addrs[k]
  {
  }

  /** An indirect entry as bmap reads it; without an indirect block there is none. */
  lemma EntryAddr(blocks: Image, inode: seq<Inode>, owner: map<nat, Slot>, i: nat, n: nat)
    requires Owned(blocks, inode, owner) && i < |inode| && n < NWORDS
    ensures inode[i].addrs[NDIRECT] == 0 ==> AddrOf(blocks, inode, i, NDIRECT + 1 + n) == 0
    ensures inode[i].addrs[NDIRECT] != 0 ==>
      && inode[i].addrs[NDIRECT] < |blocks|
      && inode[i].addrs[NDIRECT] in owner && owner[inode[i].addrs[NDIRECT]] == Slot(i, NDIRECT)
      && AddrOf(blocks, inode, i, NDIRECT + 1 + n) == GetWord(blocks[inode[i].addrs[NDIRECT]], n)
  {
    OnePlace(blocks, inode, owner, i, NDIRECT, i, NDIRECT);
    DirectAddr(blocks, inode, i, NDIRECT);
  }

  lemma ByteOfBlock(blocks: Image, inode: seq<Inode>, i: nat, off: nat, k: nat)
    requires i < |inode| && off % BSIZE + k < BSIZE
    ensures (off + k) / BSIZE == off / BSIZE && (off + k) % BSIZE == off % BSIZE + k
    ensures var a := AddrOf(blocks, inode, i, SlotOf(off / BSIZE));
      0 < a < |blocks| ==> ByteAt(blocks, inode, i, off + k) == blocks[a][off % BSIZE + k]
  {
  }

  lemma StoreBytes(blocks: Image, inode: seq<Inode>, owner: map<nat, Slot>, i: nat, off: nat, part: seq<Byte>,
                   x: Sector)
    requires Owned(blocks, inode, owner)
    requires i < |inode| && off / BSIZE < MAXFILE && off % BSIZE + |part| <= BSIZE
    requires var a := AddrOf(blocks, inode, i, SlotOf(off / BSIZE));
      0 < a < |blocks| && x == blocks[a][..off % BSIZE] + part + blocks[a][off % BSIZE + |part|..]
    ensures Stored(blocks, inode, blocks[AddrOf(blocks, inode, i, SlotOf(off / BSIZE)) := x], inode, i, off, part)
  {
    var a := AddrOf(blocks, inode, i, SlotOf(off / BSIZE));
    forall j, p | 0 <= j < |inode| && 0 <= p
      ensures ByteAt(blocks[a := x], inode, j, p)
           == if j == i && off <= p < off + |part| then part[p - off] else ByteAt(blocks, inode, j, p)
    {
      hide Owned, AddrOf, SameBytes;
      WriteBytes(blocks, inode, owner, i, off / BSIZE, x, j, p);
      if j == i {
        StoredByte(blocks[a], x, off, part, p);
      }
    }
  }

  lemma StoredByte(data: Sector, x: Sector, off: nat, part: seq<Byte>, p: nat)
    requires off % BSIZE + |part| <= BSIZE && x == data[..off % BSIZE] + part + data[off % BSIZE + |part|..]
    ensures off <= p < off + |part| ==> p / BSIZE == off / BSIZE && x[p % BSIZE] == part[p - off]
    ensures p / BSIZE == off / BSIZE && !(off <= p < off + |part|) ==> x[p % BSIZE] == data[p % BSIZE]
  {
    if p / BSIZE == off / BSIZE {
      assert p - off == p % BSIZE - off % BSIZE;
    }
  }

  /** Once the bytes are stored and the size is right, the contents are the splice. */
  lemma WriteDone(b: Image, n: seq<Inode>, o: map<nat, Slot>, b': Image, n1: seq<Inode>, n': seq<Inode>,
                  o': map<nat, Slot>, l: set<nat>, i: nat, off: nat, src: seq<Byte>)
    requires i < |n| && off <= n[i].size && off + |src| <= MAXFILE * BSIZE && Owned(b, n, o) && Owned(b', n1, o')
           && Extends(o, o', i)
    requires SameButAddrs(n, n1, i) && Stored(b, n, b', n1, i, off, src) && Covered(b', n1, l, i, off, off + |src|)
           && Sizes(n)
    requires n' == n1[i := n1[i].(size := Max(n[i].size, off + |src|))]
    ensures Owned(b', n', o')
    ensures Contents(b', n', i) == Splice(Contents(b, n, i), off, src)
    ensures OthersKept(b, n, b', n', i)
    ensures DenseKept(b, n, b', n')
    ensures Covered(b', n', l, i, off, off + |src|)
  {
    hide AddrOf, ByteAt, Owned, Extends;
    MetaOnly(b', n1, o', i, n'[i]);
    StoredSize(b, n, b', n1, n', i, off, src);
    StoredContents(b, n, b', n', i, off, src);
    if Dense(b, n, i) {
      forall bn | 0 <= bn && bn * BSIZE < n'[i].size
        ensures AddrOf(b', n', i, SlotOf(bn)) != 0
      {
        if bn * BSIZE < n[i].size {
          ExtendsAddr(b, n, o, b', n1, o', i, i, SlotOf(bn));
        } else {
          assert off / BSIZE <= bn;
        }
      }
    }
    OthersDense(b, n, o, b', n1, n', o', i);
  }

  lemma OthersDense(b: Image, n: seq<Inode>, o: map<nat, Slot>, b': Image, n1: seq<Inode>, n': seq<Inode>,
                    o': map<nat, Slot>, i: nat)
    requires i < |n| == |n'| && Owned(b, n, o) && Owned(b', n', o') && Extends(o, o', i) && Sizes(n)
    requires SameButAddrs(n, n1, i) && n' == n1[i := n'[i]] && (Dense(b, n, i) ==> Dense(b', n', i))
    ensures DenseKept(b, n, b', n')
  {
    hide AddrOf, Owned, Extends;
    forall j | 0 <= j < |n| && j != i && Dense(b, n, j)
      ensures Dense(b', n', j)
    {
      forall bn | 0 <= bn && bn * BSIZE < n'[j].size
        ensures AddrOf(b', n', j, SlotOf(bn)) != 0
      {
        assert bn < MAXFILE;
        ExtendsAddr(b, n, o, b', n', o', i, j, SlotOf(bn));
      }
    }
  }

  lemma StoredSize(b: Image, n: seq<Inode>, b': Image, n1: seq<Inode>, n': seq<Inode>, i: nat, off: nat, src: seq<Byte>)
    requires Stored(b, n, b', n1, i, off, src) && SameBytes(b', n1, b', n')
    ensures Stored(b, n, b', n', i, off, src)
  {
    hide ByteAt;
  }

  lemma SameBytesRefl(blocks: Image, inode: seq<Inode>)
    ensures SameBytes(blocks, inode, blocks, inode)
  {
  }

  lemma SameBytesTwice(b: Image, n: seq<Inode>, b': Image, n': seq<Inode>, b'': Image, n'': seq<Inode>)
    requires SameBytes(b, n, b', n') && SameBytes(b', n', b'', n'')
    ensures SameBytes(b, n, b'', n'')
  {
  }

  lemma SameBytesAt(blocks: Image, inode: seq<Inode>, blocks': Image, inode': seq<Inode>, i: nat)
    requires SameBytes(blocks, inode, blocks', inode') && i < |inode|
    ensures |inode| == |inode'| && forall p :: 0 <= p ==> ByteAt(blocks', inode', i, p) == ByteAt(blocks, inode, i, p)
  {
  }

  lemma StoreKeeps(sb: Super, reserved: set<nat>, blocks: Image, inode: seq<Inode>, owner: map<nat, Slot>, i: nat,
                          off: nat, x: Sector)
    requires Layout(sb, reserved, blocks) && Owned(blocks, inode, owner) && owner.Keys !! reserved
    requires Marked(sb, blocks, owner.Keys + reserved) && i < |inode| && off / BSIZE < MAXFILE
    requires AddrOf(blocks, inode, i, SlotOf(off / BSIZE)) != 0
    ensures var a := AddrOf(blocks, inode, i, SlotOf(off / BSIZE));
      && a < |blocks| && a in owner && owner[a] == Slot(i, SlotOf(off / BSIZE))
      && Owned(blocks[a := x], inode, owner) && Marked(sb, blocks[a := x], owner.Keys + reserved)
      && AddrOf(blocks[a := x], inode, i, SlotOf(off / BSIZE)) == a && !(sb.inodestart <= a < sb.bmapstart)
  {
    hide AddrOf, InUse;
    var a := AddrOf(blocks, inode, i, SlotOf(off / BSIZE));
    OnePlace(blocks, inode, owner, i, SlotOf(off / BSIZE), i, SlotOf(off / BSIZE));
    NotReserved(sb, reserved, blocks, a);
    hide Owned;
    SameOwned(blocks, blocks[a := x], inode, owner);
    SameAddr(blocks, blocks[a := x], inode, owner, i, SlotOf(off / BSIZE));
    SameMarks(sb, blocks, blocks[a := x], reserved, owner.Keys + reserved);
  }

  /** Refused is -1; NoSpace is where balloc's -1 would be taken for a block number. */
  datatype IoResult = Refused | Device | NoSpace | Done(n: nat)

  function Min(a: nat, b: nat): nat
  {
    if a < b then a else b
  }

  /** off + n does not fit in a size_t. */
  predicate Wraps(off: nat, n: nat): (r: bool)
    ensures off < SIZE_T && n < SIZE_T ==> (r <==> 0x1_0000_0000_0000_0000 <= off + n)
  {
    (off + n) % SIZE_T < off
  }

  /** The state the kernel's invariants describe: a block's bit is set exactly if the block is in one place of one
      inode, or reserved. */
  ghost predicate Consistent(sb: Super, reserved: set<nat>, blocks: Image, inode: seq<Inode>, owner: map<nat, Slot>)
  {
    && Layout(sb, reserved, blocks) && Owned(blocks, inode, owner) && owner.Keys !! reserved
    && Marked(sb, blocks, owner.Keys + reserved) && Sizes(inode)
  }

  class FileSystem {
    const sb: Super
    ghost const reserved: set<nat>
    var blocks: seq<Sector>
    /** In-memory inodes. */
    var inode: seq<Inode>
    ghost var owner: map<nat, Slot>
    /** Blocks given to log_write. */
    ghost var logged: set<nat>

    ghost predicate Valid()
      reads this
    {
      Consistent(sb, reserved, blocks, inode, owner) && |inode| == sb.ninodes
    }

    ghost function Now(): Snap
      reads this
    {
      Snap(blocks, inode, owner, logged)
    }

    /** balloc: the first block whose bit is clear, now set, and the block zeroed; none when all are set. */
    method Balloc() returns (ok: bool, b: nat)
      requires Layout(sb, reserved, blocks)
      modifies this`blocks, this`logged
      ensures ok ==> b < |old(blocks)| && !old(InUse(blocks, sb.bmapstart, b))
      ensures ok ==> forall c :: 0 <= c < b ==> old(InUse(blocks, sb.bmapstart, c))
      ensures ok ==> blocks == Allocated(sb, old(blocks), b) && logged == old(logged) + {sb.bmapstart + b / BPB, b}
      ensures !ok ==> blocks == old(blocks) && logged == old(logged) && Full(sb, blocks)
    {
      hide BitAt, SetAt;
      b := 0;
      while b < sb.size
        invariant b % BPB == 0 && blocks == old(blocks) && logged == old(logged)
        invariant forall c :: 0 <= c < b && c < sb.size ==> InUse(blocks, sb.bmapstart, c)
      {
        var bi := 0;
        var bb := sb.bmapstart + b / BPB;
        while bi < BPB && b + bi < sb.size
          invariant bi <= BPB && blocks == old(blocks) && logged == old(logged)
          invariant forall c :: 0 <= c < b + bi && c < sb.size ==> InUse(blocks, sb.bmapstart, c)
        {
          assert (b + bi) / BPB == b / BPB && (b + bi) % BPB == bi;
          if !BitAt(blocks[bb], bi) {
            blocks := blocks[bb := SetAt(blocks[bb], bi)];
            logged := logged + {bb};
            blocks := blocks[b + bi := ZeroSector()];
            logged := logged + {b + bi};
            return true, b + bi;
          }
          assert InUse(blocks, sb.bmapstart, b + bi);
          bi := bi + 1;
        }
        b := b + BPB;
      }
      return false, b;
    }

    /** The two uses of balloc in bmap: allocate, and enter the new block in an empty slot. */
    method FillSlot(i: nat, k: nat) returns (ok: bool, b: nat)
      requires Valid() && i < |inode| && k < NSLOTS && AddrOf(blocks, inode, i, k) == 0
      requires k > NDIRECT ==> inode[i].addrs[NDIRECT] != 0
      modifies this`blocks, this`inode, this`owner, this`logged
      ensures Valid() && SameButAddrs(old(inode), inode, i) && Extends(old(owner), owner, i)
      ensures SameBytes(old(blocks), old(inode), blocks, inode)
      ensures ok ==> b == AddrOf(blocks, inode, i, k) != 0 && owner == old(owner)[b := Slot(i, k)] && b !in old(owner)
      ensures ok ==>
          logged == old(logged) + {sb.bmapstart + b / BPB, b} + (if k > NDIRECT then {inode[i].addrs[NDIRECT]} else {})
      ensures ok ==> inode == PutInode(old(inode), i, k, b)
      ensures ok ==> b < |blocks| == sb.size < 0x1_0000_0000
      ensures Touches(sb, old(blocks), old(owner), blocks, owner, logged)
      ensures !ok ==>
          blocks == old(blocks) && inode == old(inode) && owner == old(owner) && logged == old(logged)
            && Full(sb, blocks)
    {
      hide BitAt, SetAt, InUse, Owned, Marked, Full, AddrOf, SameBytes, PutWord, Touches, Allocated;
      ghost var blocks0 := blocks;
      TouchesNone(sb, blocks, owner, logged);
      ok, b := Balloc();
      if !ok {
        SameBytesRefl(blocks, inode);
        return;
      }
      FillDone(sb, reserved, blocks0, inode, owner, logged, i, k, b);
      hide Consistent, SameButAddrs, Extends;
      if k <= NDIRECT {
        inode := inode[i := inode[i].(addrs := inode[i].addrs[k := b])];
      } else {
        var t := inode[i].addrs[NDIRECT];
        blocks := blocks[t := PutWord(blocks[t], k - NDIRECT - 1, b)];
        logged := logged + {t};
      }
      owner := owner[b := Slot(i, k)];
    }

    /** Allocating a block and entering it in an empty slot, all together. */
    static lemma FillDone(sb: Super, reserved: set<nat>, blocks0: Image, inode: seq<Inode>, owner: map<nat, Slot>,
                          l: set<nat>, i: nat, k: nat, b: Word)
      requires Consistent(sb, reserved, blocks0, inode, owner) && i < |inode| && k < NSLOTS
             && AddrOf(blocks0, inode, i, k) == 0
      requires k > NDIRECT ==> inode[i].addrs[NDIRECT] != 0
      requires b < |blocks0| && !InUse(blocks0, sb.bmapstart, b) && sb.bmapstart + b / BPB in l && b in l
      ensures 0 < b && b !in owner && (k > NDIRECT ==> inode[i].addrs[NDIRECT] < |blocks0|)
      ensures var blocks', inode', owner' := PutBlock(Allocated(sb, blocks0, b), inode, i, k, b),
                                             PutInode(inode, i, k, b), owner[b := Slot(i, k)];
        && Consistent(sb, reserved, blocks', inode', owner') && AddrOf(blocks', inode', i, k) == b
        && SameButAddrs(inode, inode', i) && Extends(owner, owner', i) && SameBytes(blocks0, inode, blocks', inode')
        && Touches(sb, blocks0, owner, blocks', owner', if k > NDIRECT then l + {inode[i].addrs[NDIRECT]} else l)
    {
      hide BitAt, SetAt, InUse, Owned, Marked, AddrOf, SameBytes, PutWord, Touches, Allocated, SameButAddrs;
      var blocks := Allocated(sb, blocks0, b);
      var blocks', inode', owner' := PutBlock(blocks, inode, i, k, b), PutInode(inode, i, k, b), owner[b := Slot(i, k)];
      AllocatedFree(sb, blocks0, inode, owner, reserved, b);
      FillKeeps(sb, reserved, blocks0, blocks, inode, owner, i, k, b);
      SameBytesTwice(blocks0, inode, blocks, inode, blocks', inode');
      if k > NDIRECT {
        FillTouches(sb, blocks0, owner, blocks', owner', b, inode[i].addrs[NDIRECT], l + {inode[i].addrs[NDIRECT]});
      } else {
        FillTouches(sb, blocks0, owner, blocks', owner', b, b, l);
      }
    }

    static lemma FillTouches(sb: Super, blocks0: Image, owner0: map<nat, Slot>, blocks: Image, owner: map<nat, Slot>,
                             b: nat, t: nat, logged: set<nat>)
      requires b < |blocks0| && t < |blocks0| && sb.bmapstart + b / BPB < |blocks0| && |blocks| == |blocks0|
      requires blocks == Allocated(sb, blocks0, b) || blocks == Allocated(sb, blocks0, b)[t := blocks[t]]
      requires sb.bmapstart + b / BPB in logged && b in logged && t in logged && owner.Keys <= owner0.Keys + {b}
      requires !(sb.inodestart <= b < sb.bmapstart) && !(sb.inodestart <= t < sb.bmapstart)
      ensures Touches(sb, blocks0, owner0, blocks, owner, logged)
    {
    }

    /** Entering a freshly allocated block keeps everything in order and shows in no file. */
    static lemma FillKeeps(sb: Super, reserved: set<nat>, blocks0: Image, blocks: Image, inode: seq<Inode>,
                           owner: map<nat, Slot>, i: nat, k: nat, b: Word)
      requires Layout(sb, reserved, blocks) && Owned(blocks0, inode, owner) && Owned(blocks, inode, owner)
             && owner.Keys !! reserved
      requires Marked(sb, blocks, owner.Keys + reserved + {b}) && i < |inode| && k < NSLOTS
      requires AddrOf(blocks0, inode, i, k) == 0 && SameMaps(blocks0, blocks, owner)
      requires k > NDIRECT ==> inode[i].addrs[NDIRECT] != 0
      requires 0 < b < |blocks| && b !in owner && b !in reserved && blocks[b] == ZeroSector()
      ensures k > NDIRECT ==> inode[i].addrs[NDIRECT] < |blocks|
      ensures var blocks', inode', owner' := PutBlock(blocks, inode, i, k, b), PutInode(inode, i, k, b),
                                             owner[b := Slot(i, k)];
        && Owned(blocks', inode', owner') && SameBytes(blocks, inode, blocks', inode') && owner'.Keys !! reserved
        && Marked(sb, blocks', owner'.Keys + reserved) && AddrOf(blocks', inode', i, k) == b
      ensures Layout(sb, reserved, PutBlock(blocks, inode, i, k, b))
      ensures SameButAddrs(inode, PutInode(inode, i, k, b), i) && (Sizes(inode) ==> Sizes(PutInode(inode, i, k, b)))
      ensures !(sb.inodestart <= b < sb.bmapstart)
      ensures k > NDIRECT ==> !(sb.inodestart <= inode[i].addrs[NDIRECT] < sb.bmapstart)
    {
      hide BitAt, SetAt, InUse, Marked, AddrOf, SameBytes, PutWord;
      NotReserved(sb, reserved, blocks, b);
      SameAddr(blocks0, blocks, inode, owner, i, k);
      DirectAddr(blocks, inode, i, NDIRECT);
      PutOnly(blocks, inode, owner, i, k, b, i, k);
      PutOwned(blocks, inode, owner, i, k, b);
      PutBytes(blocks, inode, owner, i, k, b);
      OnePlace(blocks, inode, owner, i, NDIRECT, i, NDIRECT);
      var owner' := owner[b := Slot(i, k)];
      if k > NDIRECT {
        NotReserved(sb, reserved, blocks, inode[i].addrs[NDIRECT]);
      }
      hide Owned;
      SameMarks(sb, blocks, PutBlock(blocks, inode, i, k, b), reserved, owner.Keys + reserved + {b});
      assert owner'.Keys + reserved == owner.Keys + reserved + {b};
    }

    /** What one use of balloc in bmap logs, what two log, and what none does. */
    static lemma OneLogs(sb: Super, owner: map<nat, Slot>, owner': map<nat, Slot>, l: set<nat>, l': set<nat>, i: nat,
                         b: nat, t: nat, bn: nat)
      requires owner' == owner[b := Slot(i, SlotOf(bn))] && b !in owner && b < sb.size
      requires l' == l + {sb.bmapstart + b / BPB, b} + (if NDIRECT <= bn then {t} else {})
      requires NDIRECT <= bn ==> t in owner && owner[t] == Slot(i, NDIRECT)
      ensures MapsLog(sb, owner, owner', l, l', i, bn, true, b, t)
    {
    }

    static lemma TwoLog(sb: Super, owner: map<nat, Slot>, owner': map<nat, Slot>, owner'': map<nat, Slot>, l: set<nat>,
                        l': set<nat>, l'': set<nat>, i: nat, b: nat, t: nat, bn: nat)
      requires owner' == owner[t := Slot(i, NDIRECT)] && t !in owner && t < sb.size && NDIRECT <= bn
      requires l' == l + {sb.bmapstart + t / BPB, t}
      requires MapsLog(sb, owner', owner'', l', l'', i, bn, true, b, t) && Extends(owner', owner'', i)
      ensures MapsLog(sb, owner, owner'', l, l'', i, bn, true, b, t)
    {
    }

    static lemma NoneLog(sb: Super, owner: map<nat, Slot>, l: set<nat>, i: nat, b: nat, t: nat, bn: nat)
      ensures MapsLog(sb, owner, owner, l, l, i, bn, false, b, t)
    {
    }

    /** A new indirect block has no entries. */
    static lemma NoEntry(sb: Super, reserved: set<nat>, b: Image, n: seq<Inode>, o: map<nat, Slot>, b': Image,
                         n': seq<Inode>, o': map<nat, Slot>, i: nat, t: nat, k: nat)
      requires Consistent(sb, reserved, b, n, o) && Consistent(sb, reserved, b', n', o') && i < |n| == |n'|
      requires o' == o[t := Slot(i, NDIRECT)] && k < NSLOTS && k != NDIRECT && AddrOf(b, n, i, k) == 0
      ensures AddrOf(b', n', i, k) == 0
    {
      hide AddrOf, Layout, Marked, Sizes;
      OnePlace(b', n', o', i, k, i, k);
    }

    static lemma FillNone(owner: map<nat, Slot>, n: seq<Inode>, i: nat)
      requires i < |n|
      ensures Extends(owner, owner, i) && Fills(n, n, i)
    {
    }

    static lemma EntryRead(sb: Super, reserved: set<nat>, blocks: Image, inode: seq<Inode>, owner: map<nat, Slot>,
                           i: nat, n: nat)
      requires Consistent(sb, reserved, blocks, inode, owner) && i < |inode| && n < NWORDS
      ensures inode[i].addrs[NDIRECT] == 0 ==> AddrOf(blocks, inode, i, NDIRECT + 1 + n) == 0
      ensures inode[i].addrs[NDIRECT] != 0 ==>
        && inode[i].addrs[NDIRECT] < |blocks|
        && inode[i].addrs[NDIRECT] in owner && owner[inode[i].addrs[NDIRECT]] == Slot(i, NDIRECT)
        && AddrOf(blocks, inode, i, NDIRECT + 1 + n) == GetWord(blocks[inode[i].addrs[NDIRECT]], n)
    {
      hide AddrOf, GetWord, Owned, Layout, Marked, Sizes;
      EntryAddr(blocks, inode, owner, i, n);
    }

    static lemma PutNothing(n: seq<Inode>, i: nat, k: nat, b: Word)
      requires i < |n| && k > NDIRECT
      ensures PutInode(n, i, k, b) == n
    {
    }

    /** bmap: the block of file block bn, allocated if it is missing. */
    method Bmap(i: nat, bn: nat) returns (ok: bool, addr: nat)
      requires Valid() && i < |inode| && bn < MAXFILE
      modifies this`blocks, this`inode, this`owner, this`logged
      ensures Valid() && SameButAddrs(old(inode), inode, i) && Extends(old(owner), owner, i)
      ensures SameBytes(old(blocks), old(inode), blocks, inode)
      ensures ok ==> addr == AddrOf(blocks, inode, i, SlotOf(bn)) != 0
      ensures !ok ==> Full(sb, blocks)
      ensures old(logged) <= logged
      ensures old(AddrOf(blocks, inode, i, SlotOf(bn))) != 0 ==>
        ok && blocks == old(blocks) && inode == old(inode) && owner == old(owner) && logged == old(logged)
      ensures ok ==>
        MapsLog(sb, old(owner), owner, old(logged), logged, i, bn, old(AddrOf(blocks, inode, i, SlotOf(bn))) == 0, addr,
                inode[i].addrs[NDIRECT])
      ensures Touches(sb, old(blocks), old(owner), blocks, owner, logged)
      ensures Fills(old(inode), inode, i)
      ensures ok ==> OwnAddr(inode, i, bn) != 0 && (inode == old(inode) <==> old(OwnAddr(inode, i, bn)) != 0)
    {
      hide BitAt, SetAt, InUse, Owned, Marked, Full, AddrOf, SameBytes, PutWord, GetWord, Touches, Extends, MapsLog,
           Fills, PutInode, Consistent, SameButAddrs;
      SameBytesRefl(blocks, inode);
      TouchesNone(sb, blocks, owner, logged);
      FillNone(owner, inode, i);
      ok := true;
      if bn < NDIRECT {
        addr := inode[i].addrs[bn];
        DirectAddr(blocks, inode, i, bn);
        NoneLog(sb, owner, logged, i, addr, inode[i].addrs[NDIRECT], bn);
        if addr == 0 {
          ok, addr := FillSlot(i, bn);
          if ok {
            PutFills(old(inode), i, bn, addr);
            OneLogs(sb, old(owner), owner, old(logged), logged, i, addr, inode[i].addrs[NDIRECT], bn);
          }
        }
        return;
      }
      var n := bn - NDIRECT;
      addr := inode[i].addrs[NDIRECT];
      DirectAddr(blocks, inode, i, NDIRECT);
      EntryRead(sb, reserved, blocks, inode, owner, i, n);
      ghost var blocks0, inode0, owner0 := blocks, inode, owner;
      if addr == 0 {
        ok, addr := FillSlot(i, NDIRECT);
        if !ok {
          return;
        }
        PutFills(old(inode), i, NDIRECT, addr);
        DirectAddr(blocks, inode, i, NDIRECT);
        NoEntry(sb, reserved, blocks0, inode0, owner0, blocks, inode, owner, i, addr, bn + 1);
      }
      EntryRead(sb, reserved, blocks, inode, owner, i, n);
      ghost var blocks1, inode1, owner1, logged1 := blocks, inode, owner, logged;
      var t := addr;
      addr := GetWord(blocks[t], n);
      NoneLog(sb, owner, logged, i, addr, t, bn);
      if addr == 0 {
        ok, addr := FillSlot(i, bn + 1);
        if ok {
          PutNothing(inode1, i, bn + 1, addr);
          OneLogs(sb, owner1, owner, logged1, logged, i, addr, t, bn);
          if owner1 != owner0 {
            TwoLog(sb, owner0, owner1, owner, old(logged), logged1, logged, i, addr, t, bn);
          }
        }
        NextSame(inode0, owner0, inode1, owner1, inode, owner, i);
        SameBytesTwice(blocks0, inode0, blocks1, inode1, blocks, inode);
        TouchesTwice(sb, blocks0, owner0, blocks1, owner1, blocks, owner, logged1, logged);
      }
    }

    /** bp = bread(bmap(ip, off/BSIZE)); memmove(dst, bp->data + off%BSIZE, m). */
    method ReadBlock(i: nat, off: nat, m: nat) returns (ok: bool, part: seq<Byte>)
      requires Valid() && i < |inode| && off / BSIZE < MAXFILE && 0 < m && off % BSIZE + m <= BSIZE
      modifies this`blocks, this`inode, this`owner, this`logged
      ensures Valid() && SameButAddrs(old(inode), inode, i) && SameBytes(old(blocks), old(inode), blocks, inode)
      ensures ok ==> |part| == m && forall k :: 0 <= k < m ==> part[k] == old(ByteAt(blocks, inode, i, off + k))
      ensures !ok ==> Full(sb, blocks)
      ensures ok ==> HolesFilled(sb, old(Now()), Now(), i, off, off + m)
      ensures Touches(sb, old(blocks), old(owner), blocks, owner, logged) && old(logged) <= logged
      ensures old(AddrOf(blocks, inode, i, SlotOf(off / BSIZE))) != 0 ==> ok && Now() == old(Now())
    {
      hide Marked, Full, AddrOf, Layout, ByteAt, Touches, Fills, OwnAddr, Extends, FillsLog, HolesFilled;
      var addr;
      part := [];
      ok, addr := Bmap(i, off / BSIZE);
      if ok {
        FilledBlock(sb, old(Now()), Now(), i, off, m);
        OnePlace(blocks, inode, owner, i, SlotOf(off / BSIZE), i, SlotOf(off / BSIZE));
        part := blocks[addr][off % BSIZE..off % BSIZE + m];
        hide Owned;
        forall k | 0 <= k < m
          ensures part[k] == ByteAt(blocks, inode, i, off + k)
        {
          ByteOfBlock(blocks, inode, i, off, k);
        }
      }
    }

    /** readi: exactly the bytes of the file from off on, clipped at its size. Blocks that are missing below the size
        are allocated on the way, and if the inode itself lacked an address, it is no longer written through: nothing
        calls iupdate. Devices are read by their own functions. */
    method ReadI(i: nat, off: nat, n: nat) returns (res: IoResult, dst: seq<Byte>)
      requires Valid() && i < |inode| && off < SIZE_T && n < SIZE_T
      modifies this`blocks, this`inode, this`owner, this`logged
      ensures Valid() && SameButAddrs(old(inode), inode, i) && SameBytes(old(blocks), old(inode), blocks, inode)
      ensures res.Device? <==> inode[i].kind == T_DEV
      ensures res.Refused? <==> inode[i].kind != T_DEV && (off > inode[i].size || Wraps(off, n))
      ensures res.Done? ==>
        && res.n == |dst| && off <= inode[i].size
          && dst == old(Contents(blocks, inode, i))[off..Min(off + n, inode[i].size)]
      ensures res.NoSpace? ==> Full(sb, blocks)
      ensures res.Done? && old(Synced(sb, blocks, inode)) ==>
        (Synced(sb, blocks, inode) <==> old(OwnThere(inode, i, off, Min(off + n, inode[i].size))))
      ensures res.Done? ==> HolesFilled(sb, old(Now()), Now(), i, off, Min(off + n, inode[i].size))
      ensures Touches(sb, old(blocks), old(owner), blocks, owner, logged) && old(logged) <= logged
      ensures res.Device? || res.Refused? || old(Dense(blocks, inode, i)) ==> !res.NoSpace? && Now() == old(Now())
    {
      hide Marked, Full, AddrOf, Layout, ByteAt, Owned, SameBytes, SlotOf, Synced, HolesFilled, OwnThere, Touches;
      ghost var s0 := Now();
      SameBytesRefl(blocks, inode);
      FilledNone(sb, s0, i, off);
      TouchesNone(sb, blocks, owner, logged);
      dst := [];
      if inode[i].kind == T_DEV {
        return Device, dst;
      }
      if off > inode[i].size || Wraps(off, n) {
        return Refused, dst;
      }
      var want := if off + n > inode[i].size then inode[i].size - off else n;
      var tot := 0;
      while tot < want
        invariant Valid() && SameButAddrs(s0.inode, inode, i) && SameBytes(s0.blocks, s0.inode, blocks, inode)
        invariant HolesFilled(sb, s0, Now(), i, off, off + tot)
        invariant |dst| == tot <= want && forall k :: 0 <= k < tot ==> dst[k] == ByteAt(s0.blocks, s0.inode, i, off + k)
        invariant old(Dense(blocks, inode, i)) ==> Now() == s0
      {
        ghost var s1 := Now();
        var m := Min(want - tot, BSIZE - (off + tot) % BSIZE);
        var ok, part := ReadBlock(i, off + tot, m);
        SameBytesTwice(s0.blocks, s0.inode, s1.blocks, s1.inode, blocks, inode);
        assert (off + tot) / BSIZE * BSIZE < s0.inode[i].size;
        FilledTouches(sb, s0, s1, Now(), i, off, off + tot);
        if !ok {
          return NoSpace, dst;
        }
        SameBytesAt(s0.blocks, s0.inode, s1.blocks, s1.inode, i);
        FilledTwice(sb, s0, s1, Now(), i, off, off + tot, off + tot + m);
        dst := dst + part;
        tot := tot + m;
      }
      assert dst == old(Contents(blocks, inode, i))[off..Min(off + n, s0.inode[i].size)];
      FilledTouches(sb, s0, Now(), Now(), i, off, off + tot);
      ReadThrough(sb, reserved, s0, Now(), i, off, off + want);
      return Done(want), dst;
    }

    static lemma FilledTouches(sb: Super, s: Snap, t: Snap, u: Snap, i: nat, lo: nat, hi: nat)
      requires i < |s.inode| && HolesFilled(sb, s, t, i, lo, hi)
      requires t == u || (Touches(sb, t.blocks, t.owner, u.blocks, u.owner, u.logged) && t.logged <= u.logged)
      ensures Touches(sb, s.blocks, s.owner, u.blocks, u.owner, u.logged) && s.logged <= u.logged
    {
      hide OwnThere, Covered, FillsLog, Fills, Extends;
    }

    static lemma ReadThrough(sb: Super, reserved: set<nat>, s: Snap, t: Snap, i: nat, lo: nat, hi: nat)
      requires i < |s.inode| == sb.ninodes && Layout(sb, reserved, s.blocks) && HolesFilled(sb, s, t, i, lo, hi)
      ensures Synced(sb, s.blocks, s.inode) ==> (Synced(sb, t.blocks, t.inode) <==> OwnThere(s.inode, i, lo, hi))
    {
      hide OwnThere, Extends, Covered, FillsLog, Fills, Touches, Synced;
      NotWritten(sb, reserved, s.blocks, s.inode, s.owner, t.blocks, t.inode, t.owner, t.logged, i);
    }

    /** Where iupdate is not called, an inode that changed is not written through. */
    static lemma NotWritten(sb: Super, reserved: set<nat>, b: Image, n: seq<Inode>, o: map<nat, Slot>, b': Image,
                            n': seq<Inode>, o': map<nat, Slot>, l: set<nat>, i: nat)
      requires i < |n| == sb.ninodes && Layout(sb, reserved, b) && Touches(sb, b, o, b', o', l) && Fills(n, n', i)
      ensures SameButAddrs(n, n', i)
      ensures Synced(sb, b, n) ==> (Synced(sb, b', n') <==> n' == n)
    {
      hide DecodeInode;
      if Synced(sb, b, n) {
        Unchanged(sb, reserved, b, o, b', o', l, i);
        if n' != n {
          assert DInode(sb, b', i) != n'[i];
        }
      }
    }

    /** bp = bread(bmap(ip, off/BSIZE)); memmove(bp->data + off%BSIZE, src, m); log_write(bp). */
    method WriteBlock(i: nat, off: nat, part: seq<Byte>) returns (ok: bool)
      requires Valid() && i < |inode| && off / BSIZE < MAXFILE && off % BSIZE + |part| <= BSIZE
      modifies this`blocks, this`inode, this`owner, this`logged
      ensures Valid() && SameButAddrs(old(inode), inode, i) && Extends(old(owner), owner, i)
      ensures ok ==> Stored(old(blocks), old(inode), blocks, inode, i, off, part)
      ensures ok ==>
          AddrOf(blocks, inode, i, SlotOf(off / BSIZE)) != 0 && AddrOf(blocks, inode, i, SlotOf(off / BSIZE)) in logged
      ensures old(AddrOf(blocks, inode, i, SlotOf(off / BSIZE))) != 0 ==> inode == old(inode)
      ensures old(logged) <= logged
      ensures ok ==> LoggedOnly(sb, owner, old(logged), logged, i, off / BSIZE, off / BSIZE + 1)
      ensures Fills(old(inode), inode, i)
      ensures ok ==>
          OwnAddr(inode, i, off / BSIZE) != 0 && (inode == old(inode) <==> old(OwnAddr(inode, i, off / BSIZE)) != 0)
      ensures Touches(sb, old(blocks), old(owner), blocks, owner, logged)
      ensures ok ==> BlockWritten(sb, old(Now()), Now(), i, off / BSIZE)
      ensures !ok ==> Full(sb, blocks)
    {
      hide BitAt, SetAt, InUse, Owned, Marked, Full, AddrOf, SameBytes, PutWord, GetWord, ByteAt, Stored, Fills,
           OwnAddr, FillsLog, Gains, MapLogs;
      ghost var blocks0, inode0 := blocks, inode;
      var addr;
      ok, addr := Bmap(i, off / BSIZE);
      if ok {
        OnePlace(blocks, inode, owner, i, SlotOf(off / BSIZE), i, SlotOf(off / BSIZE));
        var data := blocks[addr][..off % BSIZE] + part + blocks[addr][off % BSIZE + |part|..];
        StoreKeeps(sb, reserved, blocks, inode, owner, i, off, data);
        StoreBytes(blocks, inode, owner, i, off, part, data);
        StoredAfter(blocks0, inode0, blocks, inode, blocks[addr := data], inode, i, off, part);
        FillsOnly(sb, old(owner), owner, old(logged), logged, i, off / BSIZE, off / BSIZE + 1);
        blocks := blocks[addr := data];
        logged := logged + {addr};
      }
    }

    /** iupdate: write the in-memory inode through to its place in its block. */
    method Iupdate(i: nat)
      requires Valid() && i < |inode|
      modifies this`blocks, this`logged
      ensures Valid() && DInode(sb, blocks, i) == inode[i] && StoredOthers(sb, old(blocks), blocks, i)
      ensures SameBytes(old(blocks), inode, blocks, inode) && SameAddrs(old(blocks), blocks, inode)
      ensures logged == old(logged) + {sb.inodestart + i / IPB} && |blocks| == |old(blocks)|
      ensures forall x :: 0 <= x < |blocks| && x != sb.inodestart + i / IPB ==> blocks[x] == old(blocks)[x]
    {
      var ib := sb.inodestart + i / IPB;
      hide InUse, Owned, Marked, EncodeInode, DecodeInode, DInode, SameBytes, SameAddrs;
      StoreInode(sb, blocks, i, inode[i]);
      InodeBlockApart(sb, reserved, blocks, inode, owner, ib, EncodeInode(blocks[ib], i % IPB, inode[i]));
      blocks := blocks[ib := EncodeInode(blocks[ib], i % IPB, inode[i])];
      logged := logged + {ib};
    }

    /** Changes of an inode in memory that are not about its bytes, and iupdate. */
    method SetInode(i: nat, ip: Inode)
      requires Valid() && i < |inode| && ip.addrs == inode[i].addrs && ip.size == inode[i].size
      modifies this`blocks, this`inode, this`logged
      ensures inode == old(inode)[i := ip] && |inode| == sb.ninodes
      ensures StoredOthers(sb, old(blocks), blocks, i) && DInode(sb, blocks, i) == ip
      ensures OthersKept(old(blocks), old(inode), blocks, inode, i)
            && Contents(blocks, inode, i) == old(Contents(blocks, inode, i))
      ensures DenseKept(old(blocks), old(inode), blocks, inode) && |blocks| == |old(blocks)|
      ensures Carried(reserved, old(blocks), owner, blocks, owner, logged)
            && logged == old(logged) + {sb.inodestart + i / IPB}
      ensures Valid()
    {
      hide Layout, Marked, Owned, AddrOf, ByteAt, DInode, StoredOthers, SameBytes, SameAddrs, Carried, Contents,
           OthersKept, DenseKept;
      ghost var b0, n0, l0 := blocks, inode, logged;
      MetaOnly(blocks, inode, owner, i, ip);
      TouchesNone(sb, blocks, owner, logged);
      Unchanged(sb, reserved, blocks, owner, blocks, owner, logged, i);
      inode := inode[i := ip];
      Iupdate(i);
      MetaKept(b0, n0, blocks, inode, i);
      ChangedThen(sb, reserved, b0, owner, b0, blocks, owner, l0, logged, i);
    }

    static lemma MetaKept(b: Image, n: seq<Inode>, b': Image, n': seq<Inode>, i: nat)
      requires i < |n| == |n'| && n' == n[i := n'[i]] && n'[i].size == n[i].size
      requires forall j, k :: 0 <= j < |n| && 0 <= k ==> AddrOf(b, n', j, k) == AddrOf(b, n, j, k)
      requires SameBytes(b, n, b, n') && SameBytes(b, n', b', n') && SameAddrs(b, b', n')
      ensures OthersKept(b, n, b', n', i) && Contents(b', n', i) == Contents(b, n, i) && DenseKept(b, n, b', n')
    {
      hide AddrOf, ByteAt;
    }

    /** ialloc: the first free inode from 1 on is marked with its kind and otherwise zeroed, in its block. false is the
        panic "no inodes". */
    method Ialloc(kind: Half) returns (ok: bool, inum: nat)
      requires Valid() && StoredKinds(sb, blocks, inode) && FreeBlank(inode) && kind != 0
      modifies this`blocks, this`inode, this`logged
      ensures ok <==> exists j :: 1 <= j < |old(inode)| && old(inode)[j].kind == 0
      ensures ok ==>
          1 <= inum < |old(inode)| && old(inode)[inum].kind == 0 && forall j :: 1 <= j < inum ==>
              old(inode)[j].kind != 0
      ensures ok ==> inode == old(inode)[inum := Blank(kind, 0)] && Contents(blocks, inode, inum) == []
      ensures ok ==>
          OthersKept(old(blocks), old(inode), blocks, inode, inum) && DenseKept(old(blocks), old(inode), blocks, inode)
      ensures ok ==>
          Carried(reserved, old(blocks), owner, blocks, owner, logged)
            && logged == old(logged) + {sb.inodestart + inum / IPB}
      ensures ok ==>
          |inode| == sb.ninodes && StoredOthers(sb, old(blocks), blocks, inum)
            && DInode(sb, blocks, inum) == inode[inum]
      ensures !ok ==> unchanged(this)
      ensures Valid() && FreeBlank(inode) && |blocks| == |old(blocks)|
    {
      hide Layout, Marked, Owned, ByteAt, DInode, Carried, OthersKept, DenseKept, StoredOthers;
      inum := 1;
      while inum < sb.ninodes
        invariant 1 <= inum && unchanged(this)
        invariant forall j :: 1 <= j < inum && j < |inode| ==> inode[j].kind != 0
      {
        if DInode(sb, blocks, inum).kind == 0 {
          SetInode(inum, Blank(kind, 0));
          return true, inum;
        }
        inum := inum + 1;
      }
      return false, inum;
    }

    /** The loop of writei. */
    method WriteBlocks(i: nat, off: nat, src: seq<Byte>) returns (ok: bool)
      requires Valid() && i < |inode| && off <= inode[i].size && off + |src| <= MAXFILE * BSIZE
      modifies this`blocks, this`inode, this`owner, this`logged
      ensures Valid() && SameButAddrs(old(inode), inode, i) && Extends(old(owner), owner, i)
      ensures ok ==> Stored(old(blocks), old(inode), blocks, inode, i, off, src)
      ensures ok ==> Covered(blocks, inode, logged, i, off, off + |src|)
      ensures ok ==> LoggedOnly(sb, owner, old(logged), logged, i, off / BSIZE, (off + |src| + BSIZE - 1) / BSIZE)
      ensures old(Dense(blocks, inode, i)) && off + |src| <= old(inode)[i].size ==> inode == old(inode)
      ensures Fills(old(inode), inode, i)
            && (ok ==> (inode == old(inode) <==> old(OwnThere(inode, i, off, off + |src|))))
      ensures Touches(sb, old(blocks), old(owner), blocks, owner, logged) && old(logged) <= logged
      ensures ok ==> WroteLogs(sb, old(Now()), Now(), i, off, |src|)
      ensures !ok ==> Full(sb, blocks)
    {
      hide Marked, Full, AddrOf, Layout, ByteAt, Owned, SameBytes, Extends, SlotOf, Stored, SameButAddrs, Covered,
           LoggedOnly, Touches, Fills, OwnAddr, OwnThere, WroteLogs, BlockWritten;
      ghost var s0 := Now();
      WroteNone(sb, s0, i, off);
      ghost var blocks0, inode0, owner0 := blocks, inode, owner;
      TouchesNone(sb, blocks, owner, logged);
      WriteStart(sb, blocks, inode, owner, logged, i, off, src);
      OwnNone(inode, i, off);
      var tot := 0;
      while tot < |src|
        invariant Valid() && SameButAddrs(inode0, inode, i) && Extends(owner0, owner, i) && i < |inode|
        invariant tot <= |src| && Stored(blocks0, inode0, blocks, inode, i, off, src[..tot])
        invariant Covered(blocks, inode, logged, i, off, off + tot)
        invariant LoggedOnly(sb, owner, old(logged), logged, i, off / BSIZE, (off + tot + BSIZE - 1) / BSIZE)
        invariant old(Dense(blocks, inode, i)) && off + tot <= inode0[i].size ==> inode == inode0
        invariant Fills(inode0, inode, i) && (inode == inode0 <==> OwnThere(inode0, i, off, off + tot))
        invariant Touches(sb, blocks0, owner0, blocks, owner, logged) && old(logged) <= logged
        invariant WroteLogs(sb, s0, Now(), i, off, tot) && (tot == 0 || tot == |src| || (off + tot) % BSIZE == 0)
      {
        ghost var blocks1, inode1, owner1, logged1 := blocks, inode, owner, logged;
        ghost var s1 := Now();
        var m := Min(|src| - tot, BSIZE - (off + tot) % BSIZE);
        ok := WriteBlock(i, off + tot, src[tot..tot + m]);
        TouchesTwice(sb, blocks0, owner0, blocks1, owner1, blocks, owner, logged1, logged);
        NextSame(inode0, owner0, inode1, owner1, inode, owner, i);
        FillsTwice(inode0, inode1, inode, i);
        StillDense(blocks0, inode0, owner0, blocks1, inode1, owner1, i, off + tot);
        if !ok {
          return;
        }
        StoredThen(blocks0, inode0, blocks1, inode1, blocks, inode, i, off, src, tot, m);
        OwnNext(inode0, inode1, inode, i, off, off + tot, m);
        CoveredNext(blocks1, inode1, owner1, logged1, blocks, inode, owner, logged, i, off, off + tot, m);
        LoggedNext(sb, owner1, owner, old(logged), logged1, logged, i, off, off + tot, m);
        WroteNext(sb, s0, s1, Now(), i, off, tot, m);
        tot := tot + m;
      }
      assert src[..tot] == src;
      return true;
    }

    /** writei: the file becomes the old bytes with src stored at off, and no other file changes. */
    method WriteI(i: nat, off: nat, src: seq<Byte>) returns (res: IoResult)
      requires Valid() && i < |inode| && off < SIZE_T && |src| < SIZE_T
      modifies this
      ensures |inode| == |old(inode)| == sb.ninodes
      ensures inode[i] == old(inode)[i].(size := inode[i].size, addrs := inode[i].addrs)
            && AddrsKept(old(inode)[i], inode[i])
      ensures res.Device? <==> old(inode)[i].kind == T_DEV
      ensures res.Refused? <==>
        && old(inode)[i].kind != T_DEV
        && (off > old(inode)[i].size || Wraps(off, |src|) || off + |src| > MAXFILE * BSIZE)
      ensures res.Refused? || res.Device? ==>
        blocks == old(blocks) && inode == old(inode) && owner == old(owner) && logged == old(logged)
      ensures res.NoSpace? ==> Full(sb, blocks)
      ensures res.Done? ==>
        && off <= old(inode)[i].size && res.n == |src|
        && Contents(blocks, inode, i) == Splice(old(Contents(blocks, inode, i)), off, src)
      ensures StoredOthers(sb, old(blocks), blocks, i)
      ensures res.Done? ==> DenseKept(old(blocks), old(inode), blocks, inode)
      ensures res.Done? && old(Synced(sb, blocks, inode)) ==>
        (Synced(sb, blocks, inode) <==> off + |src| > old(inode)[i].size || old(OwnThere(inode, i, off, off + |src|)))
      ensures Carried(reserved, old(blocks), old(owner), blocks, owner, logged) && old(logged) <= logged
      ensures res.Done? ==> Covered(blocks, inode, logged, i, off, off + |src|)
      ensures res.Done? ==>
        LoggedOnly(sb, owner, old(logged) + {sb.inodestart + i / IPB}, logged, i, off / BSIZE,
                   (off + |src| + BSIZE - 1) / BSIZE)
      ensures res.Done? ==> OthersKept(old(blocks), old(inode), blocks, inode, i)
      ensures res.Done? && sb.size <= BPB ==>
        logged == old(logged) + WriteLogs(sb, old(Now()), Now(), i, off / BSIZE, EndBlock(off, |src|))
          + (if off + |src| > old(inode)[i].size then {sb.inodestart + i / IPB} else {})
      ensures res.Done? && off + |src| > old(inode)[i].size ==> DInode(sb, blocks, i) == inode[i]
      ensures res.Done? && off + |src| <= old(inode)[i].size ==>
        && DInode(sb, blocks, i) == old(DInode(sb, blocks, i))
        && (inode == old(inode) <==> old(OwnThere(inode, i, off, off + |src|)))
      ensures Valid()
    {
      hide Marked, Full, AddrOf, Layout, ByteAt, Owned, Extends, SlotOf, Stored, Covered, Dense, MayLog, Touches,
           SameBytes, SameAddrs, DInode, StoredOthers, Carried, Synced, Fills, OwnThere, DenseKept, WriteLogs;
      TouchesNone(sb, blocks, owner, logged);
      FillsKept(inode, inode, i);
      Unchanged(sb, reserved, blocks, owner, blocks, owner, logged, i);
      if inode[i].kind == T_DEV {
        return Device;
      }
      if off > inode[i].size || Wraps(off, |src|) {
        return Refused;
      }
      if off + |src| > MAXFILE * BSIZE {
        return Refused;
      }
      ghost var blocks0, inode0, owner0 := blocks, inode, owner;
      var ok := WriteBlocks(i, off, src);
      Unchanged(sb, reserved, blocks0, owner0, blocks, owner, logged, i);
      FillsKept(inode0, inode, i);
      if !ok {
        return NoSpace;
      }
      ghost var blocks1, inode1, logged1 := blocks, inode, logged;
      var end := off + |src|;
      if |src| > 0 && end > inode[i].size {
        inode := inode[i := inode[i].(size := end)];
        WriteDone(blocks0, inode0, owner0, blocks, inode1, inode, owner, logged1, i, off, src);
        Iupdate(i);
        AfterIupdate(blocks0, inode0, blocks1, blocks, inode, logged1, i, off, end);
        CoveredMore(blocks, inode, logged1, logged, i, off, end);
        SameWriteLogs(sb, old(Now()), Snap(blocks1, inode1, owner, logged1), Now(), i, off / BSIZE,
                      EndBlock(off, |src|));
        ChangedThen(sb, reserved, blocks0, owner0, blocks1, blocks, owner, logged1, logged, i);
      } else {
        WriteDone(blocks0, inode0, owner0, blocks, inode1, inode, owner, logged1, i, off, src);
        NotWritten(sb, reserved, blocks0, inode0, owner0, blocks, inode, owner, logged, i);
      }
      SyncedAfter(sb, reserved, blocks0, inode0, blocks, inode, i);
      return Done(|src|);
    }

    static lemma SyncedAfter(sb: Super, reserved: set<nat>, b: Image, n: seq<Inode>, b': Image, n': seq<Inode>, i: nat)
      requires Layout(sb, reserved, b) && i < |n| == sb.ninodes && StoredOthers(sb, b, b', i)
             && OthersKept(b, n, b', n', i)
      ensures Synced(sb, b, n) && (DInode(sb, b', i) == n'[i]
            || (n'[i] == n[i] && DInode(sb, b', i) == DInode(sb, b, i)))
        ==> Synced(sb, b', n')
    {
      hide DInode, Contents;
    }

    static lemma Unchanged(sb: Super, reserved: set<nat>, b: Image, o: map<nat, Slot>, b': Image, o': map<nat, Slot>,
                           l: set<nat>, i: nat)
      requires Layout(sb, reserved, b) && Touches(sb, b, o, b', o', l) && i < sb.ninodes
      ensures StoredOthers(sb, b, b', i) && DInode(sb, b', i) == DInode(sb, b, i) && Carried(reserved, b, o, b', o', l)
    {
      hide DecodeInode;
    }

    static lemma ChangedThen(sb: Super, reserved: set<nat>, b: Image, o: map<nat, Slot>, b': Image, b'': Image,
                             o': map<nat, Slot>, l: set<nat>, l': set<nat>, i: nat)
      requires Carried(reserved, b, o, b', o', l) && l' == l + {sb.inodestart + i / IPB} && |b''| == |b'|
      requires forall x :: 0 <= x < |b''| && x != sb.inodestart + i / IPB ==> b''[x] == b'[x]
      requires StoredOthers(sb, b, b', i) && StoredOthers(sb, b', b'', i)
      ensures Carried(reserved, b, o, b'', o', l') && StoredOthers(sb, b, b'', i)
    {
      hide DInode;
    }

    /** bfree: clear the bit of block b. false is the panic "freeing free block". */
    method Bfree(b: nat) returns (ok: bool)
      requires Layout(sb, reserved, blocks) && b < |blocks|
      modifies this`blocks, this`logged
      ensures ok <==> old(InUse(blocks, sb.bmapstart, b))
      ensures ok ==> blocks == Released(sb, old(blocks), b) && logged == old(logged) + {sb.bmapstart + b / BPB}
      ensures !ok ==> blocks == old(blocks) && logged == old(logged)
    {
      hide ClearAt;
      var bb := sb.bmapstart + b / BPB;
      ok := BitAt(blocks[bb], b % BPB);
      if ok {
        blocks := blocks[bb := ClearAt(blocks[bb], b % BPB)];
        logged := logged + {bb};
      }
    }

    /** The three places in itrunc that free a block and clear its address, in the inode or in the buffer of the
        indirect block. Only the bitmap is logged. It never panics. */
    method FreeSlot(i: nat, k: nat) returns (ok: bool)
      requires Valid() && i < |inode| && k < NSLOTS && CanPut(blocks, inode, i, k, 0)
             && AddrOf(blocks, inode, i, k) != 0
      modifies this`blocks, this`inode, this`owner, this`logged
      ensures ok && Valid() && SameButAddrs(old(inode), inode, i) && Extends(owner, old(owner), i)
      ensures SameOthers(old(blocks), old(inode), blocks, inode, i)
      ensures forall l :: 0 <= l < NSLOTS ==>
          AddrOf(blocks, inode, i, l) == if l == k then 0 else old(AddrOf(blocks, inode, i, l))
      ensures BitmapOnly(sb, old(logged), logged) && Clears(sb, old(blocks), blocks, old(owner), logged, i)
            && old(logged) <= logged
      ensures k > NDIRECT ==> inode == old(inode)
    {
      hide BitAt, ClearAt, InUse, Owned, Marked, AddrOf, SameOthers, PutWord, CanPut, Clears;
      ghost var blocks0 := blocks;
      var b := AddrOf(blocks, inode, i, k);
      OnePlace(blocks, inode, owner, i, k, i, k);
      ReleasedKeeps(sb, reserved, blocks, inode, owner, i, k);
      PutZeroKeeps(sb, reserved, Released(sb, blocks, b), inode, owner, i, k);
      SameOthersTwice(blocks, inode, Released(sb, blocks, b), inode, PutBlock(Released(sb, blocks, b), inode, i, k, 0),
                      PutInode(inode, i, k, 0), i);
      FreeClears(sb, reserved, blocks, inode, owner, i, k, b, logged);
      ok := Bfree(b);
      if k <= NDIRECT {
        inode := inode[i := inode[i].(addrs := inode[i].addrs[k := 0])];
      } else {
        var t := inode[i].addrs[NDIRECT];
        blocks := blocks[t := PutWord(blocks[t], k - NDIRECT - 1, 0)];
      }
      owner := owner - {b};
    }

    static lemma FreeClears(sb: Super, reserved: set<nat>, blocks: Image, inode: seq<Inode>, owner: map<nat, Slot>,
                            i: nat, k: nat, b: nat,
                            l: set<nat>)
      requires Layout(sb, reserved, blocks) && Owned(blocks, inode, owner) && owner.Keys !! reserved
      requires b < |blocks| && i < |inode| && CanPut(blocks, inode, i, k, 0)
      ensures Clears(sb, blocks, PutBlock(Released(sb, blocks, b), inode, i, k, 0), owner,
                     l + {sb.bmapstart + b / BPB}, i)
    {
      hide AddrOf, Owned, CanPut, ClearAt, PutWord;
      if k > NDIRECT {
        PutNeedsTable(blocks, inode, owner, i, k, 0);
        EntryAddr(blocks, inode, owner, i, 0);
        NotReserved(sb, reserved, blocks, inode[i].addrs[NDIRECT]);
      }
    }

    static lemma ReleasedKeeps(sb: Super, reserved: set<nat>, blocks: Image, inode: seq<Inode>, owner: map<nat, Slot>,
                               i: nat, k: nat)
      requires Layout(sb, reserved, blocks) && Owned(blocks, inode, owner) && owner.Keys !! reserved
      requires Marked(sb, blocks, owner.Keys + reserved) && CanPut(blocks, inode, i, k, 0)
             && AddrOf(blocks, inode, i, k) != 0
      ensures var b := AddrOf(blocks, inode, i, k);
        && b < |blocks| && b in owner && InUse(blocks, sb.bmapstart, b)
        && var blocks' := Released(sb, blocks, b);
        && |blocks'| == |blocks|
        && Owned(blocks', inode, owner) && Marked(sb, blocks', owner.Keys + reserved - {b})
          && CanPut(blocks', inode, i, k, 0)
        && (forall l :: 0 <= l < NSLOTS ==> AddrOf(blocks', inode, i, l) == AddrOf(blocks, inode, i, l))
        && SameOthers(blocks, inode, blocks', inode, i)
    {
      hide AddrOf, InUse, BitAt, ClearAt, ByteAt;
      var b := AddrOf(blocks, inode, i, k);
      OnePlace(blocks, inode, owner, i, k, i, k);
      MarkedMinus(sb, reserved, blocks, owner.Keys + reserved, b);
      var blocks' := Released(sb, blocks, b);
      assert sb.bmapstart + b / BPB in reserved;
      FreeIrrelevant(blocks, blocks', inode, owner);
      forall l | 0 <= l < NSLOTS
        ensures AddrOf(blocks', inode, i, l) == AddrOf(blocks, inode, i, l)
      {
        SameAddr(blocks, blocks', inode, owner, i, l);
      }
      hide Owned;
    }

    static lemma PutZeroKeeps(sb: Super, reserved: set<nat>, blocks: Image, inode: seq<Inode>, owner: map<nat, Slot>,
                              i: nat, k: nat)
      requires Layout(sb, reserved, blocks) && Owned(blocks, inode, owner) && owner.Keys !! reserved
      requires i < |inode| && k < NSLOTS && CanPut(blocks, inode, i, k, 0) && AddrOf(blocks, inode, i, k) != 0
      requires Marked(sb, blocks, owner.Keys + reserved - {AddrOf(blocks, inode, i, k)})
      ensures k > NDIRECT ==> inode[i].addrs[NDIRECT] < |blocks|
      ensures var b, blocks', inode' := AddrOf(blocks, inode, i, k), PutBlock(blocks, inode, i, k, 0),
                                    PutInode(inode, i, k, 0);
        && Owned(blocks', inode', owner - {b}) && Marked(sb, blocks', (owner - {b}).Keys + reserved)
        && Extends(owner - {b}, owner, i) && SameOthers(blocks, inode, blocks', inode', i)
        && forall l :: 0 <= l < NSLOTS ==>
            AddrOf(blocks', inode', i, l) == if l == k then 0 else AddrOf(blocks, inode, i, l)
    {
      hide AddrOf, InUse, PutWord, ByteAt, CanPut;
      var b, blocks', inode' := AddrOf(blocks, inode, i, k), PutBlock(blocks, inode, i, k, 0), PutInode(inode, i, k, 0);
      PutNeedsTable(blocks, inode, owner, i, k, 0);
      ClearOwned(blocks, inode, owner, i, k);
      OnePlace(blocks, inode, owner, i, k, i, k);
      forall l | 0 <= l < NSLOTS
        ensures AddrOf(blocks', inode', i, l) == if l == k then 0 else AddrOf(blocks, inode, i, l)
      {
        PutOnly(blocks, inode, owner, i, k, 0, i, l);
      }
      PutOthers(blocks, inode, owner, i, k, 0);
      hide Owned, SameOthers;
      SameMarks(sb, blocks, blocks', reserved, owner.Keys + reserved - {b});
      assert (owner - {b}).Keys + reserved == owner.Keys + reserved - {b};
    }

    /** itrunc's first loop. */
    method TruncDirect(i: nat) returns (ok: bool)
      requires Valid() && i < |inode|
      modifies this`blocks, this`inode, this`owner, this`logged
      ensures ok && Valid() && SameButAddrs(old(inode), inode, i) && Extends(owner, old(owner), i)
      ensures SameOthers(old(blocks), old(inode), blocks, inode, i) && BitmapOnly(sb, old(logged), logged)
      ensures Clears(sb, old(blocks), blocks, old(owner), logged, i) && old(logged) <= logged
      ensures forall l :: 0 <= l < NDIRECT ==> AddrOf(blocks, inode, i, l) == 0
      ensures inode[i].addrs[NDIRECT] == old(inode)[i].addrs[NDIRECT]
    {
      hide Layout, Owned, Marked, AddrOf, SameOthers, Sizes, CanPut, Extends, Clears;
      TruncStart(sb, blocks, inode, owner, logged, i);
      ok := true;
      var k := 0;
      while k < NDIRECT
        invariant k <= NDIRECT && ok && Valid() && SameButAddrs(old(inode), inode, i) && Extends(owner, old(owner), i)
        invariant SameOthers(old(blocks), old(inode), blocks, inode, i) && BitmapOnly(sb, old(logged), logged)
        invariant Clears(sb, old(blocks), blocks, old(owner), logged, i) && old(logged) <= logged
        invariant forall l :: 0 <= l < k ==> AddrOf(blocks, inode, i, l) == 0
        invariant inode[i].addrs[NDIRECT] == old(inode)[i].addrs[NDIRECT]
      {
        DirectAddr(blocks, inode, i, k);
        DirectAddr(blocks, inode, i, NDIRECT);
        if inode[i].addrs[k] != 0 {
          CanClear(blocks, inode, owner, i, k);
          ghost var blocks1, inode1, owner1, logged1 := blocks, inode, owner, logged;
          ok := FreeSlot(i, k);
          DirectAddr(blocks, inode, i, NDIRECT);
          NextTrunc(sb, old(blocks), old(inode), old(owner), blocks1, inode1, owner1, logged1, blocks, inode, owner,
                    logged, i);
        }
        k := k + 1;
      }
    }

    static lemma TruncStart(sb: Super, b: Image, n: seq<Inode>, o: map<nat, Slot>, l: set<nat>, i: nat)
      requires i < |n|
      ensures SameButAddrs(n, n, i) && Extends(o, o, i) && SameOthers(b, n, b, n, i) && Clears(sb, b, b, o, l, i)
    {
    }

    static lemma KeptTwice(sb: Super, b: Image, b': Image, b'': Image)
      requires InodesKept(sb, b, b') && InodesKept(sb, b', b'')
      ensures InodesKept(sb, b, b'')
    {
    }

    static lemma NextTrunc(sb: Super, b: Image, n: seq<Inode>, o: map<nat, Slot>, b': Image, n': seq<Inode>,
                           o': map<nat, Slot>, l': set<nat>,
                           b'': Image, n'': seq<Inode>, o'': map<nat, Slot>, l'': set<nat>, i: nat)
      requires i < |n| && SameButAddrs(n, n', i) && SameButAddrs(n', n'', i) && Extends(o', o, i) && Extends(o'', o', i)
      requires SameOthers(b, n, b', n', i) && SameOthers(b', n', b'', n'', i)
      requires Clears(sb, b, b', o, l', i) && Clears(sb, b', b'', o', l'', i) && l' <= l''
      ensures SameButAddrs(n, n'', i) && Extends(o'', o, i) && SameOthers(b, n, b'', n'', i)
            && Clears(sb, b, b'', o, l'', i)
    {
      SameOthersTwice(b, n, b', n', b'', n'', i);
      hide SameOthers;
    }

    static lemma CanClear(blocks: Image, inode: seq<Inode>, owner: map<nat, Slot>, i: nat, k: nat)
      requires Owned(blocks, inode, owner) && i < |inode| && k < NSLOTS && AddrOf(blocks, inode, i, k) != 0
      requires k == NDIRECT ==> forall l :: NDIRECT < l < NSLOTS ==> AddrOf(blocks, inode, i, l) == 0
      ensures CanPut(blocks, inode, i, k, 0)
    {
    }

    /** itrunc's second loop, over the entries of the indirect block. */
    method TruncIndirect(i: nat) returns (ok: bool)
      requires Valid() && i < |inode| && inode[i].addrs[NDIRECT] != 0
      requires forall l :: 0 <= l < NDIRECT ==> AddrOf(blocks, inode, i, l) == 0
      modifies this`blocks, this`inode, this`owner, this`logged
      ensures ok && Valid() && SameButAddrs(old(inode), inode, i) && Extends(owner, old(owner), i)
      ensures SameOthers(old(blocks), old(inode), blocks, inode, i) && BitmapOnly(sb, old(logged), logged)
      ensures Clears(sb, old(blocks), blocks, old(owner), logged, i) && old(logged) <= logged
      ensures forall l :: 0 <= l < NSLOTS ==> AddrOf(blocks, inode, i, l) == 0
    {
      hide Layout, Owned, Marked, AddrOf, SameOthers, Sizes, CanPut, Extends, GetWord, Clears;
      TruncStart(sb, blocks, inode, owner, logged, i);
      DirectAddr(blocks, inode, i, NDIRECT);
      ok := true;
      var j := 0;
      while j < NWORDS
        invariant j <= NWORDS && ok && Valid() && inode == old(inode) && Extends(owner, old(owner), i)
        invariant SameOthers(old(blocks), inode, blocks, inode, i) && BitmapOnly(sb, old(logged), logged)
        invariant Clears(sb, old(blocks), blocks, old(owner), logged, i) && old(logged) <= logged
        invariant AddrOf(blocks, inode, i, NDIRECT) == inode[i].addrs[NDIRECT]
        invariant forall l :: 0 <= l < NDIRECT + 1 + j && l != NDIRECT ==> AddrOf(blocks, inode, i, l) == 0
      {
        EntryAddr(blocks, inode, owner, i, j);
        if GetWord(blocks[inode[i].addrs[NDIRECT]], j) != 0 {
          CanClear(blocks, inode, owner, i, NDIRECT + 1 + j);
          ghost var blocks1, inode1, owner1, logged1 := blocks, inode, owner, logged;
          ok := FreeSlot(i, NDIRECT + 1 + j);
          NextTrunc(sb, old(blocks), old(inode), old(owner), blocks1, inode1, owner1, logged1, blocks, inode, owner,
                    logged, i);
        }
        j := j + 1;
      }
      CanClear(blocks, inode, owner, i, NDIRECT);
      ghost var blocks1, inode1, owner1, logged1 := blocks, inode, owner, logged;
      ok := FreeSlot(i, NDIRECT);
      NextTrunc(sb, old(blocks), old(inode), old(owner), blocks1, inode1, owner1, logged1, blocks, inode, owner, logged,
                i);
    }

    /** The blocks that belong to inode i. */
    static ghost function OfInode(owner: map<nat, Slot>, i: nat): set<nat>
    {
      set b | b in owner && owner[b].inum == i
    }

    /** itrunc: the blocks of inode i, and no others, are in no file afterwards; it never panics; only the bitmap and
        the inode are logged. */
    method Itrunc(i: nat) returns (ok: bool)
      requires Valid() && i < |inode|
      modifies this
      ensures inode == old(inode)[i := Emptied(old(inode)[i])]
      ensures StoredOthers(sb, old(blocks), blocks, i) && i < sb.ninodes
            && DInode(sb, blocks, i) == Emptied(old(inode)[i])
      ensures BitmapOnly(sb, old(logged) + {sb.inodestart + i / IPB}, logged)
      ensures Carried(reserved, old(blocks), old(owner), blocks, owner, logged)
      ensures owner == old(owner) - OfInode(old(owner), i)
      ensures OthersKept(old(blocks), old(inode), blocks, inode, i)
      ensures DenseKept(old(blocks), old(inode), blocks, inode)
      ensures ok && Valid()
    {
      hide Layout, Owned, Marked, AddrOf, SameOthers, CanPut, Extends, InUse, ByteAt, Clears, StoredOthers, DInode,
           SameAddrs, Carried, DenseKept;
      ghost var blocks0, inode0, owner0 := blocks, inode, owner;
      ok := TruncDirect(i);
      if inode[i].addrs[NDIRECT] != 0 {
        ghost var blocks1, inode1, owner1, logged1 := blocks, inode, owner, logged;
        ok := TruncIndirect(i);
        NextTrunc(sb, blocks0, inode0, owner0, blocks1, inode1, owner1, logged1, blocks, inode, owner, logged, i);
      } else {
        NoEntries(blocks, inode, i);
      }
      ghost var blocks2, logged2 := blocks, logged;
      KeptInodes(sb, reserved, blocks0, blocks, owner0, logged, i);
      MetaOnly(blocks, inode, owner, i, inode[i].(size := 0));
      Truncated(blocks0, inode0, owner0, blocks, inode, inode[i := inode[i].(size := 0)], owner, i);
      inode := inode[i := inode[i].(size := 0)];
      Iupdate(i);
      TruncStored(sb, blocks0, inode0, blocks2, blocks, inode, i);
      TruncCarried(sb, reserved, blocks0, owner0, blocks2, blocks, owner, logged2, logged, i);
      FreedDense(sb, reserved, blocks0, inode0, owner0, blocks, inode, owner, i);
    }

    /** The other files keep all their blocks. */
    static lemma FreedDense(sb: Super, reserved: set<nat>, b: Image, n: seq<Inode>, o: map<nat, Slot>, b': Image,
                            n': seq<Inode>, o': map<nat, Slot>, i: nat)
      requires Consistent(sb, reserved, b, n, o) && Consistent(sb, reserved, b', n', o') && i < |n| == |n'|
      requires o' == o - OfInode(o, i) && OthersKept(b, n, b', n', i) && n'[i].size == 0
      ensures DenseKept(b, n, b', n')
    {
      hide AddrOf, Layout, Marked, ByteAt, Contents;
      forall j, bn | 0 <= j < |n| && j != i && 0 <= bn < MAXFILE && AddrOf(b, n, j, SlotOf(bn)) != 0
        ensures AddrOf(b', n', j, SlotOf(bn)) != 0
      {
        OnePlace(b, n, o, j, SlotOf(bn), j, SlotOf(bn));
        assert AddrOf(b, n, j, SlotOf(bn)) in o';
      }
      hide Owned;
    }

    static lemma TruncCarried(sb: Super, reserved: set<nat>, b0: Image, o0: map<nat, Slot>, b: Image, b': Image,
                              o': map<nat, Slot>, l: set<nat>, l': set<nat>, i: nat)
      requires Clears(sb, b0, b, o0, l, i) && o0.Keys !! reserved && o' == o0 - OfInode(o0, i)
      requires |b'| == |b| && l' == l + {sb.inodestart + i / IPB}
      requires forall x :: 0 <= x < |b'| && x != sb.inodestart + i / IPB ==> b'[x] == b[x]
      ensures Carried(reserved, b0, o0, b', o', l')
    {
    }

    static lemma KeptInodes(sb: Super, reserved: set<nat>, b: Image, b': Image, o: map<nat, Slot>, l: set<nat>, i: nat)
      requires Layout(sb, reserved, b) && Clears(sb, b, b', o, l, i)
      ensures StoredOthers(sb, b, b', i)
    {
      hide DecodeInode;
    }

    static lemma TruncStored(sb: Super, b0: Image, n0: seq<Inode>, b: Image, b': Image, n: seq<Inode>, i: nat)
      requires StoredOthers(sb, b0, b, i) && StoredOthers(sb, b, b', i) && OthersKept(b0, n0, b, n, i)
             && SameBytes(b, n, b', n)
      ensures StoredOthers(sb, b0, b', i) && OthersKept(b0, n0, b', n, i)
    {
      hide DInode, ByteAt;
    }

    static function Emptied(ip: Inode): Inode
    {
      ip.(size := 0, addrs := seq(NDIRECT + 1, _ => 0))
    }

    static lemma NoEntries(blocks: Image, inode: seq<Inode>, i: nat)
      requires i < |inode| && inode[i].addrs[NDIRECT] == 0
      requires forall l :: 0 <= l < NDIRECT ==> AddrOf(blocks, inode, i, l) == 0
      ensures forall l :: 0 <= l < NSLOTS ==> AddrOf(blocks, inode, i, l) == 0
    {
    }

    static lemma Truncated(b: Image, n: seq<Inode>, o: map<nat, Slot>, b': Image, n1: seq<Inode>, n': seq<Inode>,
                           o': map<nat, Slot>, i: nat)
      requires i < |n| && Owned(b', n1, o') && Extends(o', o, i) && SameButAddrs(n, n1, i)
             && SameOthers(b, n, b', n1, i)
      requires n' == n1[i := n1[i].(size := 0)] && SameBytes(b', n1, b', n')
      requires forall l :: 0 <= l < NSLOTS ==> AddrOf(b', n1, i, l) == 0
      ensures o' == o - OfInode(o, i)
      ensures n' == n[i := Emptied(n[i])]
      ensures OthersKept(b, n, b', n', i)
    {
      forall k | 0 <= k <= NDIRECT
        ensures n1[i].addrs[k] == 0
      {
        DirectAddr(b', n1, i, k);
      }
      assert n1[i].addrs == Emptied(n[i]).addrs;
      hide ByteAt, AddrOf;
    }

    /** What that leaves in the bitmap: the blocks freed are exactly those that belonged to inode i. */
    static lemma ItruncFrees(sb: Super, reserved: set<nat>, b: Image, o: map<nat, Slot>, b': Image, o': map<nat, Slot>,
                             i: nat)
      requires Layout(sb, reserved, b) && Layout(sb, reserved, b') && o' == o - OfInode(o, i) && o.Keys !! reserved
      requires Marked(sb, b, o.Keys + reserved) && Marked(sb, b', o'.Keys + reserved)
      ensures Freed(sb, b, b', OfInode(o, i))
    {
      hide InUse;
    }

    /** One round of filewrite's loop: a transaction that stores at most CHUNK bytes. It logs exactly WriteSize blocks
        where there is one bitmap block; a full chunk logs at least thirteen, more than begin_op reserved. */
    method WriteChunk(i: nat, off: nat, part: seq<Byte>) returns (res: IoResult)
      requires Valid() && i < |inode| && off < SIZE_T && 0 < |part| <= CHUNK
      modifies this
      ensures Valid() && |inode| == |old(inode)|
      ensures res.Device? <==> old(inode)[i].kind == T_DEV
      ensures res.Refused? <==>
          old(inode)[i].kind != T_DEV && (off > old(inode)[i].size || off + |part| > MAXFILE * BSIZE)
      ensures res.NoSpace? ==> Full(sb, blocks)
      ensures res.Done? ==>
          res.n == |part| && Contents(blocks, inode, i) == Splice(old(Contents(blocks, inode, i)), off, part)
      ensures inode[i].kind == old(inode)[i].kind
      ensures res.Done? ==> OthersKept(old(blocks), old(inode), blocks, inode, i)
      ensures res.Done? && sb.size <= BPB ==> |logged| == old(WriteSize(blocks, inode, i, off, |part|)) <= 17
      ensures res.Done? && |part| == CHUNK ==> |logged| >= 13
      ensures Carried(reserved, old(blocks), old(owner), blocks, owner, logged)
            && (res.Done? ==> Home(sb, reserved, logged))
      ensures res.Done? && old(Dense(blocks, inode, i)) ==> Dense(blocks, inode, i)
      ensures res.Done? && old(Synced(sb, blocks, inode)) ==>
        (Synced(sb, blocks, inode) <==> off + |part| > old(inode)[i].size || old(OwnThere(inode, i, off, off + |part|)))
    {
      hide OwnThere, Layout, Marked, Full, AddrOf, ByteAt, Owned, Dense, LoggedOnly, Covered, Carried, StoredOthers,
           Home, DInode, Synced, WriteLogs, WriteSize, Wraps, Splice, EndBlock;
      WrapsFar(off, |part|);
      logged := {};
      ghost var s0 := Now();
      res := WriteI(i, off, part);
      if res.Done? {
        ChunkLogs(sb, reserved, s0, Now(), i, off, |part|);
      }
    }

    static lemma ChunkLogs(sb: Super, reserved: set<nat>, s: Snap, t: Snap, i: nat, off: nat, n: nat)
      requires Consistent(sb, reserved, t.blocks, t.inode, t.owner) && i < |s.inode| == |t.inode| == sb.ninodes
      requires 0 < n <= CHUNK && off + n <= MAXFILE * BSIZE && Covered(t.blocks, t.inode, t.logged, i, off, off + n)
      requires LoggedOnly(sb, t.owner, {} + {sb.inodestart + i / IPB}, t.logged, i, off / BSIZE,
                          (off + n + BSIZE - 1) / BSIZE)
      requires sb.size <= BPB ==>
        t.logged == {} + WriteLogs(sb, s, t, i, off / BSIZE, EndBlock(off, n))
          + (if off + n > s.inode[i].size then {sb.inodestart + i / IPB} else {})
      ensures sb.size <= BPB ==> |t.logged| == WriteSize(s.blocks, s.inode, i, off, n) <= 17
      ensures n == CHUNK ==> |t.logged| >= 13
      ensures Home(sb, reserved, t.logged)
    {
      hide OwnThere, Layout, Marked, AddrOf, Owned, LoggedOnly, Covered, Home, WriteLogs, WriteSize, EndBlock;
      WriteSizeBounds(s.blocks, s.inode, i, off, n);
      if sb.size <= BPB {
        WriteSizeExact(sb, reserved, s, t, i, off, n);
      }
      AtLeastThirteen(t.blocks, t.inode, t.owner, t.logged, i, off, n);
      HomeNone(sb, reserved);
      LoggedHome(sb, reserved, t.blocks, t.inode, t.owner, {}, t.logged, i, off / BSIZE, (off + n + BSIZE - 1) / BSIZE);
    }

    /** What wraps around does not fit in a file. */
    static lemma WrapsFar(off: nat, n: nat)
      requires off < SIZE_T && n < SIZE_T
      ensures Wraps(off, n) ==> off + n > MAXFILE * BSIZE
    {
    }

    static lemma HomeInode(sb: Super, reserved: set<nat>, b: Image, l: set<nat>, i: nat)
      requires Layout(sb, reserved, b) && i < sb.ninodes && Home(sb, reserved, l)
      ensures Home(sb, reserved, l + {sb.inodestart + i / IPB})
    {
    }

    static lemma HomeNone(sb: Super, reserved: set<nat>)
      ensures Home(sb, reserved, {})
    {
    }

    static lemma LoggedHome(sb: Super, reserved: set<nat>, b: Image, n: seq<Inode>, o: map<nat, Slot>, l: set<nat>,
                            l': set<nat>, i: nat,
                            lo: nat, hi: nat)
      requires Layout(sb, reserved, b) && Owned(b, n, o) && o.Keys !! reserved && i < sb.ninodes
      requires LoggedOnly(sb, o, l + {sb.inodestart + i / IPB}, l', i, lo, hi) && Home(sb, reserved, l)
      ensures Home(sb, reserved, l')
    {
      hide AddrOf;
    }

    /** filewrite on an inode: chunk by chunk, moving the file's offset along. */
    method FileWrite(i: nat, writable: bool, off: nat, src: seq<Byte>) returns (res: FileResult, newOff: nat)
      requires Valid() && i < |inode| && off < SIZE_T && |src| < SIZE_T
      modifies this
      ensures Valid() && |inode| == |old(inode)|
      ensures res.NotWritable? <==> !writable
      ensures res.Wrote? ==>
          res.n == |src| && newOff == off + |src| && (src != [] ==> off <= |old(Contents(blocks, inode, i))|)
      ensures writable && src == [] ==> res == Wrote(0) && newOff == off
      ensures writable && old(inode)[i].kind != T_DEV && off <= old(inode)[i].size && off + |src| <= MAXFILE * BSIZE ==>
        (!Full(sb, blocks) ==> res == Wrote(|src|))
      ensures res.Wrote? && src != [] ==>
          Contents(blocks, inode, i) == Splice(old(Contents(blocks, inode, i)), off, src)
      ensures res.NotWritable? || src == [] ==> blocks == old(blocks) && inode == old(inode)
      ensures res.Wrote? ==> OthersKept(old(blocks), old(inode), blocks, inode, i)
      ensures res.ToDevice? <==> writable && src != [] && old(inode)[i].kind == T_DEV
      ensures res.Panic? ==> writable && src != [] && old(inode)[i].kind != T_DEV
      ensures res.Panic? ==> Full(sb, blocks) || off > old(inode)[i].size || off + |src| > MAXFILE * BSIZE
      ensures writable && src != [] && old(inode)[i].kind != T_DEV ==>
        (off > old(inode)[i].size || off + |src| > MAXFILE * BSIZE ==> res.Panic?)
    {
      hide Layout, Marked, Full, AddrOf, ByteAt, Owned, Contents, Splice;
      newOff := off;
      if !writable {
        return NotWritable, newOff;
      }
      ghost var c0 := Contents(blocks, inode, i);
      var k := 0;
      while k < |src|
        invariant k <= |src| && newOff == off + k && Valid() && |inode| == |old(inode)|
        invariant inode[i].kind == old(inode)[i].kind
        invariant k > 0 ==> inode[i].kind != T_DEV && off <= old(inode)[i].size && off + k <= MAXFILE * BSIZE
        invariant k == 0 ==> Contents(blocks, inode, i) == c0 && inode[i].size == old(inode)[i].size
        invariant k > 0 ==> off <= |c0| && Contents(blocks, inode, i) == Splice(c0, off, src[..k])
        invariant OthersKept(old(blocks), old(inode), blocks, inode, i)
        invariant src == [] ==> blocks == old(blocks) && inode == old(inode)
      {
        var r := Min(CHUNK, |src| - k);
        ghost var c1 := Contents(blocks, inode, i);
        SpliceLength(c0, off, src[..k]);
        ContentsLength(blocks, inode, i);
        ContentsLength(old(blocks), old(inode), i);
        var res1 := WriteChunk(i, newOff, src[k..k + r]);
        if res1.Device? {
          return ToDevice, newOff;
        } else if !res1.Done? {
          return Panic, newOff;
        }
        SpliceTwice(c0, off, src, k, r);
        newOff := newOff + r;
        k := k + r;
      }
      assert src[..k] == src;
      return Wrote(|src|), newOff;
    }

    static lemma ContentsLength(b: Image, n: seq<Inode>, i: nat)
      requires i < |n|
      ensures |Contents(b, n, i)| == n[i].size
    {
    }
  }
}
