/** Directories: dirlookup and dirlink over the file that holds the entries. */
module Directory {
  import opened Bytes
  import opened Bitmap
  import opened BlockMap
  import opened Dirents
  import opened Holes
  import opened Params
  import opened Sets
  import opened DiskInodes
  import FS = FileSystem

  /** NoSpace is where balloc's -1 would be taken for a block number. */
  datatype Lookup = Found(off: nat, inum: nat) | Missing | Panic | NoSpace

  datatype Link = Linked | Exists | LinkPanic | LinkNoSpace

  /** The entries of directory dp. */
  ghost function List(blocks: Image, inode: seq<Inode>, dp: nat): seq<Dirent>
    requires dp < |inode|
  {
    Entries(Contents(blocks, inode, dp))
  }

  /** Reading keeps every byte; it may fill holes of this one file. */
  ghost predicate OnlyRead(blocks: Image, inode: seq<Inode>, blocks': Image, inode': seq<Inode>, i: nat)
    requires i < |inode|
  {
    FS.SameButAddrs(inode, inode', i) && SameBytes(blocks, inode, blocks', inode')
  }

  lemma OnlyReadTwice(b: Image, n: seq<Inode>, b': Image, n': seq<Inode>, b'': Image, n'': seq<Inode>, i: nat)
    requires i < |n| && OnlyRead(b, n, b', n', i) && OnlyRead(b', n', b'', n'', i)
    ensures OnlyRead(b, n, b'', n'', i)
  {
    hide ByteAt;
  }

  lemma OnlyReadContents(b: Image, n: seq<Inode>, b': Image, n': seq<Inode>, i: nat)
    requires i < |n| && OnlyRead(b, n, b', n', i)
    ensures |n'| == |n|
    ensures forall j :: 0 <= j < |n| ==>
        Contents(b', n', j) == Contents(b, n, j) && n'[j].size == n[j].size && n'[j].kind == n[j].kind
  {
    hide ByteAt;
  }

  /** readi(dp, &de, off, sizeof(de)) for an entry that is wholly inside the file. */
  method ReadEntry(fs: FS.FileSystem, dp: nat, e: nat) returns (ok: bool, de: seq<Byte>)
    requires fs.Valid() && dp < |fs.inode| && fs.inode[dp].kind == T_DIR && DESIZE * e + DESIZE <= fs.inode[dp].size
    modifies fs`blocks, fs`inode, fs`owner, fs`logged
    ensures fs.Valid() && OnlyRead(old(fs.blocks), old(fs.inode), fs.blocks, fs.inode, dp)
    ensures ok ==> |de| == DESIZE && Decode(de) == List(old(fs.blocks), old(fs.inode), dp)[e]
    ensures !ok ==> FS.Full(fs.sb, fs.blocks)
    ensures ok ==> FS.HolesFilled(fs.sb, old(fs.Now()), fs.Now(), dp, DESIZE * e, DESIZE * e + DESIZE)
    ensures old(Dense(fs.blocks, fs.inode, dp)) ==> ok && unchanged(fs)
  {
    hide SameBytes, FS.Layout, FS.Marked, Owned, ByteAt, Decode, FS.Full, FS.SameButAddrs, Dense, FS.Touches,
         FS.OwnThere, FS.Synced, FS.HolesFilled;
    ghost var c := Contents(fs.blocks, fs.inode, dp);
    assert DESIZE * e + DESIZE < FS.SIZE_T by {
      assert fs.inode[dp].size <= MAXFILE * BSIZE;
    }
    var res;
    res, de := fs.ReadI(dp, DESIZE * e, DESIZE);
    ok := res.Done?;
    if ok {
      SameShape(old(fs.inode), fs.inode, dp);
      assert de == c[DESIZE * e..DESIZE * e + DESIZE];
      assert Entries(c)[e] == EntryAt(c, e);
    }
  }

  /** dirlookup: the first entry in use with this name. To find that there is none it has read the whole directory. */
  method Dirlookup(fs: FS.FileSystem, dp: nat, name: seq<Byte>) returns (res: Lookup)
    requires fs.Valid() && dp < |fs.inode|
    modifies fs`blocks, fs`inode, fs`owner, fs`logged
    ensures fs.Valid() && OnlyRead(old(fs.blocks), old(fs.inode), fs.blocks, fs.inode, dp)
    ensures res.Found? ==>
      var es := List(old(fs.blocks), old(fs.inode), dp);
      var k := First(es, Cut(name), 0);
      k < |es| && res == Found(DESIZE * k, es[k].inum)
    ensures res.Found? ==> FS.HolesFilled(fs.sb, old(fs.Now()), fs.Now(), dp, 0, res.off + DESIZE)
    ensures res.Missing? ==>
      var es := List(old(fs.blocks), old(fs.inode), dp);
      First(es, Cut(name), 0) == |es| && old(fs.inode)[dp].size % DESIZE == 0 && old(fs.inode)[dp].kind == T_DIR
    ensures res.Missing? ==> FS.HolesFilled(fs.sb, old(fs.Now()), fs.Now(), dp, 0, old(fs.inode)[dp].size)
    ensures old(fs.inode)[dp].kind != T_DIR ==> res.Panic?
    ensures res.Panic? ==>
      || old(fs.inode)[dp].kind != T_DIR
      || (old(fs.inode)[dp].size % DESIZE != 0 &&
          var es := List(old(fs.blocks), old(fs.inode), dp); First(es, Cut(name), 0) == |es|)
    ensures res.NoSpace? ==> FS.Full(fs.sb, fs.blocks)
    ensures old(Dense(fs.blocks, fs.inode, dp)) ==> !res.NoSpace? && unchanged(fs)
  {
    hide SameBytes, FS.Layout, FS.Marked, Owned, ByteAt, Decode, FS.Full, First, FS.SameButAddrs, Dense,
         FS.HolesFilled;
    ghost var blocks0, inode0, s0 := fs.blocks, fs.inode, fs.Now();
    ghost var es := List(blocks0, inode0, dp);
    OnlyReadRefl(blocks0, inode0, dp);
    FS.FilledNone(fs.sb, s0, dp, 0);
    if fs.inode[dp].kind != T_DIR {
      return Panic;
    }
    var e := 0;
    while DESIZE * e < fs.inode[dp].size
      invariant fs.Valid() && OnlyRead(blocks0, inode0, fs.blocks, fs.inode, dp) && dp < |fs.inode|
              && fs.inode[dp].kind == T_DIR
      invariant fs.inode[dp].size == inode0[dp].size && List(fs.blocks, fs.inode, dp) == es
      invariant e <= |es| && First(es, Cut(name), 0) == First(es, Cut(name), e)
      invariant FS.HolesFilled(fs.sb, s0, fs.Now(), dp, 0, DESIZE * e)
      invariant old(Dense(fs.blocks, fs.inode, dp)) ==> unchanged(fs)
      decreases inode0[dp].size - DESIZE * e
    {
      if DESIZE * e + DESIZE > fs.inode[dp].size {
        FirstStep(es, Cut(name), e);
        return Panic;
      }
      ghost var blocks1, inode1, s1 := fs.blocks, fs.inode, fs.Now();
      var ok, de := ReadEntry(fs, dp, e);
      OnlyReadTwice(blocks0, inode0, blocks1, inode1, fs.blocks, fs.inode, dp);
      OnlyReadContents(blocks1, inode1, fs.blocks, fs.inode, dp);
      if !ok {
        return NoSpace;
      }
      FilledEntry(fs.sb, fs.reserved, s0, s1, fs.Now(), dp, e);
      var same := Namecmp(name, de[2..]);
      FirstStep(es, Cut(name), e);
      DecodeParts(de);
      var inum := de[0] as int + 0x100 * de[1] as int;
      if inum != 0 && same {
        return Found(DESIZE * e, inum);
      }
      e := e + 1;
    }
    FirstStep(es, Cut(name), e);
    return Missing;
  }

  lemma FilledEntry(sb: FS.Super, reserved: set<nat>, s: FS.Snap, t: FS.Snap, u: FS.Snap, dp: nat, e: nat)
    requires FS.Consistent(sb, reserved, t.blocks, t.inode, t.owner)
           && FS.Consistent(sb, reserved, u.blocks, u.inode, u.owner)
    requires dp < |s.inode| && dp < |t.inode| && DESIZE * e + DESIZE <= t.inode[dp].size
    requires FS.HolesFilled(sb, s, t, dp, 0, DESIZE * e)
    requires FS.HolesFilled(sb, t, u, dp, DESIZE * e, DESIZE * e + DESIZE)
    ensures FS.HolesFilled(sb, s, u, dp, 0, DESIZE * e + DESIZE)
  {
    hide FS.HolesFilled, FS.Layout, FS.Marked, Owned;
    FS.FilledTwice(sb, s, t, u, dp, 0, DESIZE * e, DESIZE * e + DESIZE);
  }

  lemma OnlyReadRefl(b: Image, n: seq<Inode>, i: nat)
    requires i < |n|
    ensures OnlyRead(b, n, b, n, i)
  {
  }

  lemma FirstStep(es: seq<Dirent>, name: seq<Byte>, e: nat)
    requires e <= |es|
    ensures e == |es| ==> First(es, name, e) == |es|
    ensures e < |es| ==>
        First(es, name, e) == if es[e].inum != 0 && es[e].name == name then e else First(es, name, e + 1)
  {
  }

  lemma DecodeParts(de: seq<Byte>)
    requires |de| == DESIZE
    ensures Decode(de).inum == de[0] as int + 0x100 * de[1] as int && Decode(de).name == Cut(de[2..])
  {
  }

  /** dirlink's search for an empty entry. */
  method FindFree(fs: FS.FileSystem, dp: nat) returns (ok: bool, e: nat)
    requires fs.Valid() && dp < |fs.inode| && fs.inode[dp].kind == T_DIR && fs.inode[dp].size % DESIZE == 0
    modifies fs
    ensures fs.Valid() && OnlyRead(old(fs.blocks), old(fs.inode), fs.blocks, fs.inode, dp)
    ensures ok ==> e == FirstFree(List(old(fs.blocks), old(fs.inode), dp), 0)
    ensures !ok ==> FS.Full(fs.sb, fs.blocks)
    ensures old(Dense(fs.blocks, fs.inode, dp)) ==> ok && unchanged(fs)
  {
    hide SameBytes, FS.Layout, FS.Marked, Owned, ByteAt, Decode, FS.Full, FirstFree, FS.SameButAddrs, Dense;
    ghost var blocks0, inode0 := fs.blocks, fs.inode;
    ghost var es := List(blocks0, inode0, dp);
    OnlyReadRefl(blocks0, inode0, dp);
    e := 0;
    while DESIZE * e < fs.inode[dp].size
      invariant fs.Valid() && OnlyRead(blocks0, inode0, fs.blocks, fs.inode, dp) && dp < |fs.inode|
              && fs.inode[dp].kind == T_DIR
      invariant fs.inode[dp].size == inode0[dp].size && List(fs.blocks, fs.inode, dp) == es
      invariant e <= |es| && FirstFree(es, 0) == FirstFree(es, e)
      invariant old(Dense(fs.blocks, fs.inode, dp)) ==> unchanged(fs)
      decreases inode0[dp].size - DESIZE * e
    {
      ghost var blocks1, inode1 := fs.blocks, fs.inode;
      var de;
      ok, de := ReadEntry(fs, dp, e);
      OnlyReadTwice(blocks0, inode0, blocks1, inode1, fs.blocks, fs.inode, dp);
      OnlyReadContents(blocks1, inode1, fs.blocks, fs.inode, dp);
      if !ok {
        return;
      }
      FirstFreeStep(es, e);
      DecodeParts(de);
      if de[0] as int + 0x100 * de[1] as int == 0 {
        return;
      }
      e := e + 1;
    }
    FirstFreeStep(es, e);
    return true, e;
  }

  lemma FirstFreeStep(es: seq<Dirent>, e: nat)
    requires e <= |es|
    ensures e == |es| ==> FirstFree(es, e) == |es|
    ensures e < |es| ==> FirstFree(es, e) == if es[e].inum == 0 then e else FirstFree(es, e + 1)
  {
  }

  /** The file block that the first free entry is in. */
  ghost function FreeBlock(es: seq<Dirent>): nat
  {
    DESIZE * FirstFree(es, 0) / BSIZE
  }

  /** What writing entry e logs. */
  lemma LinkLogs(sb: FS.Super, reserved: set<nat>, b: Image, n: seq<Inode>, o: map<nat, Slot>, l: set<nat>,
                 l': set<nat>, dp: nat, e: nat)
    requires FS.Consistent(sb, reserved, b, n, o) && dp < sb.ninodes == |n| && DESIZE * e + DESIZE <= MAXFILE * BSIZE
    requires FS.LoggedOnly(sb, o, l + {sb.inodestart + dp / IPB}, l', dp, DESIZE * e / BSIZE,
                           (DESIZE * e + DESIZE + BSIZE - 1) / BSIZE)
    ensures FS.Home(sb, reserved, l) ==> FS.Home(sb, reserved, l')
    ensures sb.size <= BPB ==> l' <= l + FS.WriteSet(sb, b, n, dp, DESIZE * e / BSIZE)
  {
    hide FS.LoggedOnly, FS.Marked, Owned, FS.Layout, FS.Home, FS.WriteSet;
    if FS.Home(sb, reserved, l) {
      FS.FileSystem.LoggedHome(sb, reserved, b, n, o, l, l', dp, DESIZE * e / BSIZE,
                               (DESIZE * e + DESIZE + BSIZE - 1) / BSIZE);
    }
    if sb.size <= BPB {
      EntryBlock(e);
      FS.LoggedInSet(sb, b, n, o, l, l', dp, DESIZE * e / BSIZE);
    }
  }

  /** An entry lies in one block. */
  lemma EntryBlock(e: nat)
    requires DESIZE * e + DESIZE <= MAXFILE * BSIZE
    ensures (DESIZE * e + DESIZE + BSIZE - 1) / BSIZE == DESIZE * e / BSIZE + 1 && DESIZE * e / BSIZE < MAXFILE
  {
    var q, m := e / 32, e % 32;
    assert e == 32 * q + m;
  }

  /** What linking a name has changed on the way from s to t: whatever is in use and was not logged is as it was, no
      file has got a hole and the directory has none, and no inode other than the directory's was stored. */
  ghost predicate LinkKept(sb: FS.Super, reserved: set<nat>, s: FS.Snap, t: FS.Snap, dp: nat)
    requires dp < |s.inode|
  {
    && FS.Carried(reserved, s.blocks, s.owner, t.blocks, t.owner, t.logged) && s.logged <= t.logged
    && (FS.Home(sb, reserved, s.logged) ==> FS.Home(sb, reserved, t.logged))
    && FS.DenseKept(s.blocks, s.inode, t.blocks, t.inode) && Dense(t.blocks, t.inode, dp)
    && FS.AddrsKept(s.inode[dp], t.inode[dp]) && FS.StoredOthers(sb, s.blocks, t.blocks, dp)
  }

  /** The inode stored for the directory: if the directory grew, the one in memory. If not, it is the one stored before,
      and the one in memory has changed exactly if there was a hole in the inode itself. */
  ghost predicate LinkStored(sb: FS.Super, s: FS.Snap, t: FS.Snap, dp: nat, grew: bool)
    requires dp < |s.inode| == |t.inode|
  {
    && |s.inode| == sb.ninodes && |s.blocks| == |t.blocks| && sb.inodestart + FS.InodeBlocks(sb.ninodes) <= |s.blocks|
    && if grew then FS.DInode(sb, t.blocks, dp) == t.inode[dp]
       else
         && FS.DInode(sb, t.blocks, dp) == FS.DInode(sb, s.blocks, dp)
         && (t.inode == s.inode <==> FS.OwnThere(s.inode, dp, 0, s.inode[dp].size))
  }

  /** dirlookup first, then writei. */
  lemma LinkKeeps(sb: FS.Super, reserved: set<nat>, s: FS.Snap, t: FS.Snap, u: FS.Snap, dp: nat)
    requires FS.Consistent(sb, reserved, s.blocks, s.inode, s.owner)
           && FS.Consistent(sb, reserved, t.blocks, t.inode, t.owner)
    requires dp < |s.inode| == |t.inode| == |u.inode| == sb.ninodes && FS.HolesFilled(sb, s, t, dp, 0, s.inode[dp].size)
    requires FS.Carried(reserved, t.blocks, t.owner, u.blocks, u.owner, u.logged) && t.logged <= u.logged
    requires FS.Home(sb, reserved, t.logged) ==> FS.Home(sb, reserved, u.logged)
    requires FS.DenseKept(t.blocks, t.inode, u.blocks, u.inode) && FS.AddrsKept(t.inode[dp], u.inode[dp])
    requires FS.StoredOthers(sb, t.blocks, u.blocks, dp)
    ensures LinkKept(sb, reserved, s, u, dp)
  {
    hide FS.Consistent, FS.HolesFilled, FS.Carried, FS.Home, Dense, FS.DInode, FS.OwnThere;
    FilledKeeps(sb, reserved, s, t, dp);
    if FS.Home(sb, reserved, s.logged) {
      FilledHome(sb, reserved, s, t, dp, 0, s.inode[dp].size);
    }
    FS.CarriedTwice(reserved, s.blocks, s.owner, t.blocks, t.owner, t.logged, u.blocks, u.owner, u.logged);
  }

  lemma LinkStores(sb: FS.Super, reserved: set<nat>, s: FS.Snap, t: FS.Snap, u: FS.Snap, dp: nat, e: nat)
    requires FS.Consistent(sb, reserved, s.blocks, s.inode, s.owner)
           && FS.Consistent(sb, reserved, t.blocks, t.inode, t.owner)
    requires dp < |s.inode| == |t.inode| == |u.inode| == sb.ninodes && FS.HolesFilled(sb, s, t, dp, 0, s.inode[dp].size)
    requires FS.StoredOthers(sb, t.blocks, u.blocks, dp)
    requires DESIZE * e + DESIZE > t.inode[dp].size ==> FS.DInode(sb, u.blocks, dp) == u.inode[dp]
    requires DESIZE * e + DESIZE <= t.inode[dp].size ==>
      && FS.DInode(sb, u.blocks, dp) == FS.DInode(sb, t.blocks, dp)
      && (u.inode == t.inode <==> FS.OwnThere(t.inode, dp, DESIZE * e, DESIZE * e + DESIZE))
    ensures LinkStored(sb, s, u, dp, DESIZE * e + DESIZE > t.inode[dp].size)
  {
    hide FS.Consistent, FS.HolesFilled, FS.Carried, FS.DInode, FS.OwnThere, Dense, FS.DenseKept;
    FilledKeeps(sb, reserved, s, t, dp);
    if DESIZE * e + DESIZE <= t.inode[dp].size {
      FS.DenseOwn(t.blocks, t.inode, dp, DESIZE * e, DESIZE * e + DESIZE);
    }
  }

  /** The bitmap, the directory's inode and indirect block, the block of the entry, and what filled the holes. */
  lemma LinkCounts(sb: FS.Super, reserved: set<nat>, s: FS.Snap, t: FS.Snap, u: FS.Snap, dp: nat, bn: nat)
    requires FS.Consistent(sb, reserved, s.blocks, s.inode, s.owner)
           && FS.Consistent(sb, reserved, t.blocks, t.inode, t.owner)
    requires dp < |s.inode| == |t.inode| == |u.inode| == sb.ninodes && FS.HolesFilled(sb, s, t, dp, 0, s.inode[dp].size)
    requires FS.AddrsKept(t.inode[dp], u.inode[dp]) && sb.size <= BPB
    requires u.logged <= t.logged + FS.WriteSet(sb, u.blocks, u.inode, dp, bn)
    ensures |u.logged| <= |s.logged| + 4 + AllHoles(s.blocks, s.inode, dp)
  {
    hide AddrOf, FS.HolesFilled, Fillings, HoleCount, Owned, FS.Layout, FS.Marked;
    FilledLogs(sb, s, t, dp, s.inode[dp].size);
    var k := FS.EndBlock(0, s.inode[dp].size);
    FillingsCount(s, t, dp, k);
    var four := {sb.bmapstart, sb.inodestart + dp / IPB, AddrOf(u.blocks, u.inode, dp, SlotOf(bn)),
                 u.inode[dp].addrs[NDIRECT] as nat};
    var all := s.logged + Fillings(s, t, dp, k) + four;
    assert u.logged <= all;
    SubsetSize(u.logged, all);
  }

  /** A hole in a directory has free entries, so a directory with holes does not grow. */
  lemma HoleIsFree(b: Image, n: seq<Inode>, dp: nat)
    requires dp < |n| && n[dp].size % DESIZE == 0 && !FS.OwnThere(n, dp, 0, n[dp].size)
    ensures FirstFree(List(b, n, dp), 0) < |List(b, n, dp)|
  {
    hide FirstFree, Cut;
    var bn :| 0 <= bn && bn * BSIZE < n[dp].size && FS.OwnAddr(n, dp, bn) == 0;
    var e: nat := bn * BSIZE / DESIZE;
    assert DESIZE * e == bn * BSIZE && DESIZE * e + DESIZE <= n[dp].size;
    assert AddrOf(b, n, dp, SlotOf(bn)) == 0;
    hide AddrOf;
    assert ByteAt(b, n, dp, DESIZE * e) == 0 && ByteAt(b, n, dp, DESIZE * e + 1) == 0;
    hide ByteAt;
    assert List(b, n, dp)[e] == EntryAt(Contents(b, n, dp), e);
  }

  /** If all inodes were written through before, they are so afterwards exactly if the directory's own inode had no
      hole. */
  lemma LinkSynced(sb: FS.Super, s: FS.Snap, t: FS.Snap, dp: nat)
    requires dp < |s.inode| == |t.inode| && s.inode[dp].size % DESIZE == 0
    requires var es := List(s.blocks, s.inode, dp); LinkStored(sb, s, t, dp, FirstFree(es, 0) == |es|)
    requires FS.StoredOthers(sb, s.blocks, t.blocks, dp) && FS.OthersKept(s.blocks, s.inode, t.blocks, t.inode, dp)
    requires FS.Synced(sb, s.blocks, s.inode)
    ensures FS.Synced(sb, t.blocks, t.inode) <==> FS.OwnThere(s.inode, dp, 0, s.inode[dp].size)
  {
    hide FS.DInode, FirstFree, Contents, Entries;
    if !FS.OwnThere(s.inode, dp, 0, s.inode[dp].size) {
      HoleIsFree(s.blocks, s.inode, dp);
      hide FS.OwnThere;
      assert t.inode[dp] != s.inode[dp];
    }
  }

  /** If the entry went to a block that the inode as it was before has no address for, then the directory read through
      that inode has the entries it had before. */
  lemma LinkLost(b: Image, n: seq<Inode>, b': Image, n': seq<Inode>, dp: nat, de: Dirent)
    requires dp < |n| == |n'| && n[dp].size % DESIZE == 0 && FS.AddrsKept(n[dp], n'[dp])
    requires List(b', n', dp) == Insert(List(b, n, dp), de)
    requires var es := List(b, n, dp); FirstFree(es, 0) < |es| && FS.OwnAddr(n, dp, FreeBlock(es)) == 0
    ensures List(b', n, dp) == List(b, n, dp)
  {
    var es, es' := List(b, n, dp), List(b', n, dp);
    forall f | 0 <= f < |es|
      ensures es'[f] == es[f]
    {
      var k := FirstFree(es, 0);
      hide FirstFree, Decode;
      if FS.OwnAddr(n, dp, DESIZE * f / BSIZE) == 0 {
        HoleEntry(b, n, dp, f);
        HoleEntry(b', n, dp, f);
      } else {
        assert f != k && List(b', n', dp)[f] == es[f];
        KeptEntry(b', n, n', dp, f);
      }
    }
  }

  lemma HoleEntry(b: Image, n: seq<Inode>, dp: nat, e: nat)
    requires dp < |n| && DESIZE * e + DESIZE <= n[dp].size && FS.OwnAddr(n, dp, DESIZE * e / BSIZE) == 0
    ensures List(b, n, dp)[e] == Decode(seq(DESIZE, _ => 0))
  {
    assert AddrOf(b, n, dp, SlotOf(DESIZE * e / BSIZE)) == 0;
    hide AddrOf, Decode;
    forall p | DESIZE * e <= p < DESIZE * e + DESIZE
      ensures Contents(b, n, dp)[p] == 0
    {
      EntryByte(e, p);
    }
    assert Contents(b, n, dp)[DESIZE * e..DESIZE * e + DESIZE] == seq(DESIZE, _ => 0);
  }

  lemma EntryByte(e: nat, p: nat)
    requires DESIZE * e <= p < DESIZE * e + DESIZE
    ensures p / BSIZE == DESIZE * e / BSIZE
  {
  }

  lemma KeptEntry(b: Image, n: seq<Inode>, n': seq<Inode>, dp: nat, e: nat)
    requires dp < |n| == |n'| && DESIZE * e + DESIZE <= n[dp].size && DESIZE * e + DESIZE <= n'[dp].size
    requires FS.AddrsKept(n[dp], n'[dp]) && FS.OwnAddr(n, dp, DESIZE * e / BSIZE) != 0
    ensures List(b, n, dp)[e] == List(b, n', dp)[e]
  {
    assert AddrOf(b, n, dp, SlotOf(DESIZE * e / BSIZE)) == AddrOf(b, n', dp, SlotOf(DESIZE * e / BSIZE));
    hide AddrOf, Decode;
    forall p | DESIZE * e <= p < DESIZE * e + DESIZE
      ensures Contents(b, n, dp)[p] == Contents(b, n', dp)[p]
    {
      EntryByte(e, p);
    }
    var i, j := DESIZE * e, DESIZE * e + DESIZE;
    assert Contents(b, n, dp)[i..j] == Contents(b, n', dp)[i..j];
  }

  /** No entry is free, and the file cannot get longer. */
  ghost predicate NoRoom(b: Image, n: seq<Inode>, dp: nat)
    requires dp < |n|
  {
    FirstFree(List(b, n, dp), 0) == |List(b, n, dp)| && n[dp].size + DESIZE > MAXFILE * BSIZE
  }

  /** dirlink: unless the name is there, the list of entries becomes Insert of the new one, and no other file changes.
      The lookup that comes first fills the holes of the directory, so the rest finds none. */
  method Dirlink(fs: FS.FileSystem, dp: nat, name: seq<Byte>, inum: nat) returns (res: Link)
    requires fs.Valid() && dp < |fs.inode|
    modifies fs
    ensures fs.Valid()
    ensures res.Linked? ==>
      var es := List(old(fs.blocks), old(fs.inode), dp);
      && First(es, Cut(name), 0) == |es| && dp < |fs.inode|
      && List(fs.blocks, fs.inode, dp) == Insert(es, Dirent(inum % 0x1_0000, Cut(name)))
      && FS.OthersKept(old(fs.blocks), old(fs.inode), fs.blocks, fs.inode, dp)
      && fs.inode[dp] == old(fs.inode)[dp].(size := fs.inode[dp].size, addrs := fs.inode[dp].addrs)
      && fs.inode[dp].size % DESIZE == 0 && fs.inode[dp].size <= old(fs.inode)[dp].size + DESIZE
    ensures res.Exists? ==>
      && First(List(old(fs.blocks), old(fs.inode), dp), Cut(name), 0) < |List(old(fs.blocks), old(fs.inode), dp)|
      && OnlyRead(old(fs.blocks), old(fs.inode), fs.blocks, fs.inode, dp)
    ensures res.LinkPanic? ==>
      || old(fs.inode)[dp].kind != T_DIR
      || (First(List(old(fs.blocks), old(fs.inode), dp), Cut(name), 0) == |List(old(fs.blocks), old(fs.inode), dp)|
          && (old(fs.inode)[dp].size % DESIZE != 0 || NoRoom(old(fs.blocks), old(fs.inode), dp)))
    ensures res.LinkNoSpace? ==> FS.Full(fs.sb, fs.blocks)
    ensures res.Linked? ==>
      var es := List(old(fs.blocks), old(fs.inode), dp);
      && old(fs.inode)[dp].size % DESIZE == 0 && LinkKept(fs.sb, fs.reserved, old(fs.Now()), fs.Now(), dp)
      && LinkStored(fs.sb, old(fs.Now()), fs.Now(), dp, FirstFree(es, 0) == |es|)
    ensures res.Linked? && fs.sb.size <= BPB ==>
      |fs.logged| <= |old(fs.logged)| + 4 + old(AllHoles(fs.blocks, fs.inode, dp))
    ensures res.Linked? && old(Dense(fs.blocks, fs.inode, dp)) && fs.sb.size <= BPB ==>
      fs.logged <= old(fs.logged)
        + FS.WriteSet(fs.sb, fs.blocks, fs.inode, dp, FreeBlock(List(old(fs.blocks), old(fs.inode), dp)))
  {
    hide SameBytes, FS.Consistent, FS.Layout, FS.Marked, Owned, ByteAt, Decode, Encode, FS.Full, First, FirstFree,
         Dense;
    hide FS.LoggedOnly, FS.Covered, FS.SameButAddrs, FS.Carried, FS.Synced, FS.Home, FS.StoredOthers, FS.OwnThere;
    hide FS.OthersKept, FS.Splice, Insert, Entries, FS.WriteSet, FS.AddrsKept, FS.DenseKept, FS.WriteLogs;
    hide FS.HolesFilled, LinkKept, LinkStored, AllHoles, FS.DInode, Contents, OnlyRead, AddrOf, FS.EndBlock, Cut;
    hide FS.Wraps, FS.DInode;
    ghost var blocks0, inode0, s0 := fs.blocks, fs.inode, fs.Now();
    ghost var es := List(blocks0, inode0, dp);
    var there := Dirlookup(fs, dp, name);
    OnlyReadContents(blocks0, inode0, fs.blocks, fs.inode, dp);
    if there.Found? {
      return Exists;
    } else if there.Panic? {
      return LinkPanic;
    } else if there.NoSpace? {
      return LinkNoSpace;
    }
    ghost var blocks1, inode1, s1 := fs.blocks, fs.inode, fs.Now();
    FilledKeeps(fs.sb, fs.reserved, s0, s1, dp);
    SameShape(inode0, inode1, dp);
    var ok, e := FindFree(fs, dp);
    assert ok && fs.Now() == s1;
    LinkOffset(fs.sb, fs.reserved, blocks1, inode1, s1.owner, dp, e);
    var de := Encode(inum, name);
    EntrySpliced(Contents(blocks1, inode1, dp), es, inum, name, e);
    var res1 := fs.WriteI(dp, DESIZE * e, de);
    if res1.NoSpace? {
      return LinkNoSpace;
    } else if !res1.Done? {
      assert NoRoom(blocks0, inode0, dp);
      return LinkPanic;
    }
    LinkLogs(fs.sb, fs.reserved, fs.blocks, fs.inode, fs.owner, s1.logged, fs.logged, dp, e);
    LinkKeeps(fs.sb, fs.reserved, s0, s1, fs.Now(), dp);
    LinkStores(fs.sb, fs.reserved, s0, s1, fs.Now(), dp, e);
    if fs.sb.size <= BPB {
      LinkCounts(fs.sb, fs.reserved, s0, s1, fs.Now(), dp, DESIZE * e / BSIZE);
    }
    KeptThrough(blocks0, inode0, blocks1, inode1, fs.blocks, fs.inode, dp);
    return Linked;
  }

  lemma SameShape(n: seq<Inode>, n': seq<Inode>, i: nat)
    requires i < |n| && FS.SameButAddrs(n, n', i)
    ensures |n'| == |n| && n'[i] == n[i].(addrs := n'[i].addrs)
  {
  }

  lemma LinkOffset(sb: FS.Super, reserved: set<nat>, b: Image, n: seq<Inode>, o: map<nat, Slot>, dp: nat, e: nat)
    requires FS.Consistent(sb, reserved, b, n, o) && dp < |n| && n[dp].size % DESIZE == 0 && e <= |List(b, n, dp)|
    ensures DESIZE * e <= n[dp].size == |Contents(b, n, dp)|
    ensures DESIZE * e < FS.SIZE_T && !FS.Wraps(DESIZE * e, DESIZE)
    ensures if e < |List(b, n, dp)| then DESIZE * e + DESIZE <= MAXFILE * BSIZE else DESIZE * e == n[dp].size
  {
  }

  /** Storing an encoded entry at its place in the file is Insert. */
  lemma EntrySpliced(c: seq<Byte>, es: seq<Dirent>, inum: nat, name: seq<Byte>, e: nat)
    requires es == Entries(c) && e == FirstFree(es, 0) && |c| % DESIZE == 0 && e <= |c| / DESIZE
    ensures DESIZE * e <= |c| && |Encode(inum, name)| == DESIZE
    ensures Entries(FS.Splice(c, DESIZE * e, Encode(inum, name))) == Insert(es, Dirent(inum % 0x1_0000, Cut(name)))
  {
    hide Encode, Decode;
    DirentRoundTrip(inum, name);
    SpliceEntry(c, e, Encode(inum, name));
    SpliceIsConcat(c, DESIZE * e, Encode(inum, name));
  }

  lemma SpliceIsConcat(c: seq<Byte>, off: nat, de: seq<Byte>)
    requires off <= |c|
    ensures FS.Splice(c, off, de) == c[..off] + de + (if off + |de| < |c| then c[off + |de|..] else [])
  {
  }

  lemma KeptThrough(b0: Image, n0: seq<Inode>, b1: Image, n1: seq<Inode>, b: Image, n: seq<Inode>, i: nat)
    requires i < |n0| && OnlyRead(b0, n0, b1, n1, i) && FS.OthersKept(b1, n1, b, n, i)
    ensures FS.OthersKept(b0, n0, b, n, i)
  {
    OnlyReadContents(b0, n0, b1, n1, i);
    hide ByteAt;
  }
}
