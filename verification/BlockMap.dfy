/** Which block belongs where: the block addresses in inodes and indirect blocks, and the files they spell out. */
module BlockMap {
  import opened Bytes

  const NDIRECT: nat := 12
  const MAXFILE: nat := NDIRECT + NWORDS
  /** Places for an address in one inode: the direct ones, the indirect block, and the entries of that. */
  const NSLOTS: nat := MAXFILE + 1

  type Addrs = s: seq<Word> | |s| == NDIRECT + 1 witness seq(NDIRECT + 1, _ => 0)

  type Half = h: int | 0 <= h < 0x1_0000

  datatype Inode = Inode(kind: Half, major: Half, minor: Half, nlink: Half, size: Word, addrs: Addrs)

  /** An inode without addresses; of kind 0, it is free. */
  function Blank(kind: Half, nlink: Half): Inode
  {
    Inode(kind, 0, 0, nlink, 0, seq(NDIRECT + 1, _ => 0))
  }

  /** A place for an address: slot k of inode inum. */
  datatype Slot = Slot(inum: nat, k: nat)

  /** The address in slot k of inode i; 0 if none. */
  function AddrOf(blocks: Image, inode: seq<Inode>, i: nat, k: nat): nat
    requires i < |inode|
  {
    var a := inode[i].addrs;
    if k <= NDIRECT then a[k]
    else if a[NDIRECT] == 0 || a[NDIRECT] >= |blocks| || k >= NSLOTS then 0
    else GetWord(blocks[a[NDIRECT]], k - NDIRECT - 1)
  }

  /** The slot of file block bn. */
  function SlotOf(bn: nat): nat
  {
    if bn < NDIRECT then bn else bn + 1
  }

  ghost predicate Named(blocks: Image, inode: seq<Inode>, owner: map<nat, Slot>)
  {
    forall i, k :: 0 <= i < |inode| && 0 <= k < NSLOTS && AddrOf(blocks, inode, i, k) != 0 ==>
      AddrOf(blocks, inode, i, k) in owner && owner[AddrOf(blocks, inode, i, k)] == Slot(i, k)
  }

  ghost predicate Placed(blocks: Image, inode: seq<Inode>, owner: map<nat, Slot>)
  {
    forall b :: b in owner ==>
      && 0 < b < |blocks| && owner[b].inum < |inode| && owner[b].k < NSLOTS
      && AddrOf(blocks, inode, owner[b].inum, owner[b].k) == b
  }

  /** owner names the one place of every block in use by a file. Since a block has one owner, no address occurs twice.
      */
  ghost predicate Owned(blocks: Image, inode: seq<Inode>, owner: map<nat, Slot>)
  {
    Named(blocks, inode, owner) && Placed(blocks, inode, owner)
  }

  /** No block is in two places. */
  lemma OnePlace(blocks: Image, inode: seq<Inode>, owner: map<nat, Slot>, i: nat, k: nat, j: nat, l: nat)
    requires Owned(blocks, inode, owner) && i < |inode| && j < |inode| && k < NSLOTS && l < NSLOTS
    ensures AddrOf(blocks, inode, i, k) == AddrOf(blocks, inode, j, l) != 0 ==> i == j && k == l
    ensures var b := AddrOf(blocks, inode, i, k); b != 0 ==> b < |blocks| && b in owner && owner[b] == Slot(i, k)
  {
  }

  /** Inodes and blocks after slot k of inode i is set to b. */
  function PutInode(inode: seq<Inode>, i: nat, k: nat, b: Word): seq<Inode>
    requires i < |inode|
  {
    if k <= NDIRECT then inode[i := inode[i].(addrs := inode[i].addrs[k := b])] else inode
  }

  function PutBlock(blocks: Image, inode: seq<Inode>, i: nat, k: nat, b: Word): (r: Image)
    requires i < |inode|
    ensures |r| == |blocks|
  {
    var t := inode[i].addrs[NDIRECT];
    if k <= NDIRECT || k >= NSLOTS || t >= |blocks| then blocks
    else blocks[t := PutWord(blocks[t], k - NDIRECT - 1, b)]
  }

  /** What it takes to set slot k of inode i to b: the indirect block is there for an entry; it enters empty and
      leaves empty. */
  ghost predicate CanPut(blocks: Image, inode: seq<Inode>, i: nat, k: nat, b: nat)
  {
    && i < |inode| && k < NSLOTS
    && (k > NDIRECT ==> inode[i].addrs[NDIRECT] != 0)
    && (k == NDIRECT && b != 0 ==> inode[i].addrs[NDIRECT] == 0 && b < |blocks| && blocks[b] == ZeroSector())
    && (k == NDIRECT && b == 0 ==> forall l :: NDIRECT < l < NSLOTS ==> AddrOf(blocks, inode, i, l) == 0)
  }

  /** It sets that slot and no other. */
  lemma PutOnly(blocks: Image, inode: seq<Inode>, owner: map<nat, Slot>, i: nat, k: nat, b: Word, j: nat, l: nat)
    requires Owned(blocks, inode, owner) && CanPut(blocks, inode, i, k, b) && j < |inode| && l < NSLOTS
    ensures AddrOf(PutBlock(blocks, inode, i, k, b), PutInode(inode, i, k, b), j, l)
         == if j == i && l == k then b else AddrOf(blocks, inode, j, l)
  {
    OnePlace(blocks, inode, owner, i, NDIRECT, j, NDIRECT);
    hide Owned, PutWord, GetWord;
    if k > NDIRECT {
      var t := inode[i].addrs[NDIRECT];
      if l > NDIRECT && j == i {
        GetPut(blocks[t], k - NDIRECT - 1, b, l - NDIRECT - 1);
      }
    } else if k == NDIRECT && j == i && l > NDIRECT {
      ZeroWord(l - NDIRECT - 1);
    }
  }

  /** One address more, in an empty slot. */
  lemma PutOwned(blocks: Image, inode: seq<Inode>, owner: map<nat, Slot>, i: nat, k: nat, b: Word)
    requires Owned(blocks, inode, owner) && CanPut(blocks, inode, i, k, b) && AddrOf(blocks, inode, i, k) == 0
    requires 0 < b < |blocks| && b !in owner
    ensures Owned(PutBlock(blocks, inode, i, k, b), PutInode(inode, i, k, b), owner[b := Slot(i, k)])
  {
    var blocks', inode' := PutBlock(blocks, inode, i, k, b), PutInode(inode, i, k, b);
    forall j, l | 0 <= j < |inode| && 0 <= l < NSLOTS
      ensures AddrOf(blocks', inode', j, l) == if j == i && l == k then b else AddrOf(blocks, inode, j, l)
    {
      PutOnly(blocks, inode, owner, i, k, b, j, l);
    }
    PlusSlot(blocks, blocks', inode, inode', owner, i, k, b);
  }

  lemma PlusSlot(blocks: Image, blocks': Image, inode: seq<Inode>, inode': seq<Inode>, owner: map<nat, Slot>, i: nat,
                 k: nat, b: nat)
    requires Owned(blocks, inode, owner) && i < |inode| == |inode'| && k < NSLOTS && |blocks| == |blocks'|
    requires AddrOf(blocks, inode, i, k) == 0 && 0 < b < |blocks| && b !in owner
    requires forall j, l :: 0 <= j < |inode| && 0 <= l < NSLOTS ==>
               AddrOf(blocks', inode', j, l) == if j == i && l == k then b else AddrOf(blocks, inode, j, l)
    ensures Owned(blocks', inode', owner[b := Slot(i, k)])
  {
    hide AddrOf;
  }

  /** One address less. */
  lemma ClearOwned(blocks: Image, inode: seq<Inode>, owner: map<nat, Slot>, i: nat, k: nat)
    requires Owned(blocks, inode, owner) && CanPut(blocks, inode, i, k, 0)
    ensures Owned(PutBlock(blocks, inode, i, k, 0), PutInode(inode, i, k, 0), owner - {AddrOf(blocks, inode, i, k)})
  {
    var blocks', inode' := PutBlock(blocks, inode, i, k, 0), PutInode(inode, i, k, 0);
    forall j, l | 0 <= j < |inode| && 0 <= l < NSLOTS
      ensures AddrOf(blocks', inode', j, l) == if j == i && l == k then 0 else AddrOf(blocks, inode, j, l)
    {
      PutOnly(blocks, inode, owner, i, k, 0, j, l);
    }
    MinusSlot(blocks, blocks', inode, inode', owner, i, k);
  }

  lemma MinusSlot(blocks: Image, blocks': Image, inode: seq<Inode>, inode': seq<Inode>, owner: map<nat, Slot>, i: nat,
                  k: nat)
    requires Owned(blocks, inode, owner) && i < |inode| == |inode'| && k < NSLOTS && |blocks| == |blocks'|
    requires forall j, l :: 0 <= j < |inode| && 0 <= l < NSLOTS ==>
               AddrOf(blocks', inode', j, l) == if j == i && l == k then 0 else AddrOf(blocks, inode, j, l)
    ensures Owned(blocks', inode', owner - {AddrOf(blocks, inode, i, k)})
  {
    hide AddrOf;
  }

  /** Only indirect blocks carry addresses. */
  ghost predicate SameMaps(blocks: Image, blocks': Image, owner: map<nat, Slot>)
  {
    |blocks'| == |blocks| && forall b :: b in owner && b < |blocks| && owner[b].k == NDIRECT ==> blocks'[b] == blocks[b]
  }

  lemma SameAddr(blocks: Image, blocks': Image, inode: seq<Inode>, owner: map<nat, Slot>, i: nat, k: nat)
    requires Owned(blocks, inode, owner) && SameMaps(blocks, blocks', owner) && i < |inode|
    ensures AddrOf(blocks', inode, i, k) == AddrOf(blocks, inode, i, k)
  {
    OnePlace(blocks, inode, owner, i, NDIRECT, i, NDIRECT);
  }

  lemma SameOwned(blocks: Image, blocks': Image, inode: seq<Inode>, owner: map<nat, Slot>)
    requires Owned(blocks, inode, owner) && SameMaps(blocks, blocks', owner)
    ensures Owned(blocks', inode, owner)
  {
    forall i, k | 0 <= i < |inode| && 0 <= k < NSLOTS
      ensures AddrOf(blocks', inode, i, k) == AddrOf(blocks, inode, i, k)
    {
      SameAddr(blocks, blocks', inode, owner, i, k);
    }
    hide AddrOf;
  }

  // ---------- Files ----------

  /** Byte p of file i; a missing block reads as zeros. */
  function ByteAt(blocks: Image, inode: seq<Inode>, i: nat, p: nat): Byte
    requires i < |inode|
  {
    var a := AddrOf(blocks, inode, i, SlotOf(p / BSIZE));
    if a == 0 || a >= |blocks| then 0 else blocks[a][p % BSIZE]
  }

  /** The file as the array of its bytes. */
  function Contents(blocks: Image, inode: seq<Inode>, i: nat): (r: seq<Byte>)
    requires i < |inode|
    ensures |r| == inode[i].size
  {
    seq(inode[i].size, p requires 0 <= p => ByteAt(blocks, inode, i, p))
  }

  /** Every block below the size of file i is there. */
  ghost predicate Dense(blocks: Image, inode: seq<Inode>, i: nat)
    requires i < |inode|
  {
    forall bn :: 0 <= bn && bn * BSIZE < inode[i].size ==> AddrOf(blocks, inode, i, SlotOf(bn)) != 0
  }

  /** No byte of any file differs. */
  ghost predicate SameBytes(blocks: Image, inode: seq<Inode>, blocks': Image, inode': seq<Inode>)
  {
    |inode| == |inode'| && forall i, p :: 0 <= i < |inode| && 0 <= p ==>
        ByteAt(blocks', inode', i, p) == ByteAt(blocks, inode, i, p)
  }

  /** A new block of zeros in an empty slot changes no byte of any file. */
  lemma PutBytes(blocks: Image, inode: seq<Inode>, owner: map<nat, Slot>, i: nat, k: nat, b: Word)
    requires Owned(blocks, inode, owner) && CanPut(blocks, inode, i, k, b) && AddrOf(blocks, inode, i, k) == 0
    requires 0 < b < |blocks| && b !in owner && blocks[b] == ZeroSector()
    ensures SameBytes(blocks, inode, PutBlock(blocks, inode, i, k, b), PutInode(inode, i, k, b))
  {
    var blocks', inode' := PutBlock(blocks, inode, i, k, b), PutInode(inode, i, k, b);
    forall j, p | 0 <= j < |inode| && 0 <= p
      ensures ByteAt(blocks', inode', j, p) == ByteAt(blocks, inode, j, p)
    {
      var l := SlotOf(p / BSIZE);
      if l < NSLOTS {
        PutOnly(blocks, inode, owner, i, k, b, j, l);
        OnePlace(blocks, inode, owner, i, NDIRECT, j, l);
        hide Owned, AddrOf, CanPut;
        TableNotData(blocks, inode, owner, i, j, p / BSIZE);
      }
    }
  }

  /** An indirect block is never a data block, so writing it changes no byte of data. */
  lemma TableNotData(blocks: Image, inode: seq<Inode>, owner: map<nat, Slot>, i: nat, j: nat, bn: nat)
    requires Owned(blocks, inode, owner) && i < |inode| && j < |inode| && SlotOf(bn) < NSLOTS
    ensures inode[i].addrs[NDIRECT] != 0 ==> AddrOf(blocks, inode, j, SlotOf(bn)) != inode[i].addrs[NDIRECT]
    ensures AddrOf(blocks, inode, j, SlotOf(bn)) != 0 ==> AddrOf(blocks, inode, j, SlotOf(bn)) in owner
  {
    OnePlace(blocks, inode, owner, j, SlotOf(bn), i, NDIRECT);
    assert AddrOf(blocks, inode, i, NDIRECT) == inode[i].addrs[NDIRECT];
  }

  /** Setting a slot of inode i shows in no other file. */
  lemma PutOthers(blocks: Image, inode: seq<Inode>, owner: map<nat, Slot>, i: nat, k: nat, b: Word)
    requires Owned(blocks, inode, owner) && CanPut(blocks, inode, i, k, b)
    ensures forall j, p :: 0 <= j < |inode| && j != i && 0 <= p ==>
              ByteAt(PutBlock(blocks, inode, i, k, b), PutInode(inode, i, k, b), j, p) == ByteAt(blocks, inode, j, p)
  {
    var blocks', inode' := PutBlock(blocks, inode, i, k, b), PutInode(inode, i, k, b);
    forall j, p | 0 <= j < |inode| && j != i && 0 <= p
      ensures ByteAt(blocks', inode', j, p) == ByteAt(blocks, inode, j, p)
    {
      var l := SlotOf(p / BSIZE);
      if l < NSLOTS {
        PutOnly(blocks, inode, owner, i, k, b, j, l);
        hide Owned, AddrOf, CanPut, PutWord;
        TableNotData(blocks, inode, owner, i, j, p / BSIZE);
      }
    }
  }

  /** An entry is only set where there is an indirect block. */
  lemma PutNeedsTable(blocks: Image, inode: seq<Inode>, owner: map<nat, Slot>, i: nat, k: nat, b: nat)
    requires Owned(blocks, inode, owner) && CanPut(blocks, inode, i, k, b)
    ensures k > NDIRECT ==> 0 < inode[i].addrs[NDIRECT] < |blocks| && inode[i].addrs[NDIRECT] in owner
  {
    OnePlace(blocks, inode, owner, i, NDIRECT, i, NDIRECT);
  }

  /** Storing to the block of file block bn changes those bytes of that file and nothing else. */
  lemma WriteBytes(blocks: Image, inode: seq<Inode>, owner: map<nat, Slot>, i: nat, bn: nat, x: Sector, j: nat, p: nat)
    requires Owned(blocks, inode, owner) && i < |inode| && bn < MAXFILE && AddrOf(blocks, inode, i, SlotOf(bn)) != 0
           && j < |inode|
    ensures AddrOf(blocks, inode, i, SlotOf(bn)) < |blocks|
    ensures ByteAt(blocks[AddrOf(blocks, inode, i, SlotOf(bn)) := x], inode, j, p)
         == if j == i && p / BSIZE == bn then x[p % BSIZE] else ByteAt(blocks, inode, j, p)
  {
    var a := AddrOf(blocks, inode, i, SlotOf(bn));
    OnePlace(blocks, inode, owner, i, SlotOf(bn), i, SlotOf(bn));
    assert SameMaps(blocks, blocks[a := x], owner);
    SameAddr(blocks, blocks[a := x], inode, owner, j, SlotOf(p / BSIZE));
    if SlotOf(p / BSIZE) < NSLOTS {
      OnePlace(blocks, inode, owner, i, SlotOf(bn), j, SlotOf(p / BSIZE));
    } else {
      assert AddrOf(blocks, inode, j, SlotOf(p / BSIZE)) == 0;
    }
  }

  /** Blocks that belong to no file can hold anything: no address and no byte of any file depends on them. So it does
      not matter that itrunc clears the entries of an indirect block that it is about to free without logging it. */
  lemma FreeIrrelevant(blocks: Image, blocks': Image, inode: seq<Inode>, owner: map<nat, Slot>)
    requires Owned(blocks, inode, owner) && |blocks| == |blocks'|
    requires forall b :: b in owner && b < |blocks| ==> blocks'[b] == blocks[b]
    ensures Owned(blocks', inode, owner) && SameBytes(blocks, inode, blocks', inode)
  {
    SameOwned(blocks, blocks', inode, owner);
    forall i, p | 0 <= i < |inode| && 0 <= p
      ensures ByteAt(blocks', inode, i, p) == ByteAt(blocks, inode, i, p)
    {
      SameAddr(blocks, blocks', inode, owner, i, SlotOf(p / BSIZE));
      if SlotOf(p / BSIZE) < NSLOTS {
        OnePlace(blocks, inode, owner, i, SlotOf(p / BSIZE), i, SlotOf(p / BSIZE));
      }
    }
  }
}
