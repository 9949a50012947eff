/** Holes: file blocks below the size of a file that were never allocated, and what reading leaves of them. */
module Holes {
  import opened Bytes
  import opened Bitmap
  import opened BlockMap
  import opened FileSystem
  import opened Sets

  /** Those among the first hi blocks of file i. */
  ghost function HoleCount(blocks: Image, inode: seq<Inode>, i: nat, hi: nat): nat
    requires i < |inode|
  {
    if hi == 0 then 0
    else HoleCount(blocks, inode, i, hi - 1) + if AddrOf(blocks, inode, i, SlotOf(hi - 1)) == 0 then 1 else 0
  }

  /** Those of the whole file. */
  ghost function AllHoles(blocks: Image, inode: seq<Inode>, i: nat): nat
    requires i < |inode|
  {
    HoleCount(blocks, inode, i, EndBlock(0, inode[i].size))
  }

  lemma {:induction false} NoHoles(b: Image, n: seq<Inode>, i: nat, hi: nat)
    requires i < |n| && Dense(b, n, i) && hi <= EndBlock(0, n[i].size)
    ensures HoleCount(b, n, i, hi) == 0
  {
    hide AddrOf;
    if hi > 0 {
      NoHoles(b, n, i, hi - 1);
      assert (hi - 1) * BSIZE < n[i].size;
    }
  }

  lemma NoneAtAll(b: Image, n: seq<Inode>, i: nat)
    requires i < |n| && Dense(b, n, i)
    ensures AllHoles(b, n, i) == 0
  {
    NoHoles(b, n, i, EndBlock(0, n[i].size));
  }

  /** The blocks that came to be there. */
  ghost function Fillings(s: Snap, t: Snap, i: nat, hi: nat): set<nat>
    requires i < |s.inode| == |t.inode|
  {
    if hi == 0 then {}
    else
      var bn := hi - 1;
      Fillings(s, t, i, bn)
      + if AddrOf(s.blocks, s.inode, i, SlotOf(bn)) == 0 then {AddrOf(t.blocks, t.inode, i, SlotOf(bn))} else {}
  }

  lemma {:induction false} FillingsCount(s: Snap, t: Snap, i: nat, hi: nat)
    requires i < |s.inode| == |t.inode|
    ensures |Fillings(s, t, i, hi)| <= HoleCount(s.blocks, s.inode, i, hi)
    ensures forall bn :: 0 <= bn < hi && AddrOf(s.blocks, s.inode, i, SlotOf(bn)) == 0 ==>
        AddrOf(t.blocks, t.inode, i, SlotOf(bn)) in Fillings(s, t, i, hi)
  {
    hide AddrOf;
    if hi > 0 {
      FillingsCount(s, t, i, hi - 1);
    }
  }

  /** What reading the first hi bytes logs on a disk with one bitmap block: the bitmap, the blocks filled in, the
      indirect block. */
  lemma FilledLogs(sb: Super, s: Snap, t: Snap, i: nat, hi: nat)
    requires i < |s.inode| == |t.inode| && HolesFilled(sb, s, t, i, 0, hi) && sb.size <= BPB && hi <= MAXFILE * BSIZE
    requires Owned(s.blocks, s.inode, s.owner) && Owned(t.blocks, t.inode, t.owner)
    ensures t.logged <= s.logged + Fillings(s, t, i, EndBlock(0, hi)) + Marks(sb, t, i)
  {
    hide Fills, OwnThere, Extends, Covered, Touches, AddrOf, Owned, Fillings, FillsLog, Marks, BitmapBlocks;
    forall x | x in t.logged && x !in s.logged
      ensures x in Fillings(s, t, i, EndBlock(0, hi)) + Marks(sb, t, i)
    {
      FilledLog(sb, s, t, i, hi, x);
    }
  }

  lemma FilledLog(sb: Super, s: Snap, t: Snap, i: nat, hi: nat, x: nat)
    requires i < |s.inode| == |t.inode| && Extends(s.owner, t.owner, i) && sb.size <= BPB && hi <= MAXFILE * BSIZE
    requires FillsLog(sb, s.owner, t.owner, s.logged, t.logged, i, 0 / BSIZE, (hi + BSIZE - 1) / BSIZE)
    requires Owned(s.blocks, s.inode, s.owner) && Owned(t.blocks, t.inode, t.owner)
    requires x in t.logged && x !in s.logged
    ensures x in Fillings(s, t, i, EndBlock(0, hi)) + Marks(sb, t, i)
  {
    hide Extends, AddrOf, Owned, Fillings;
    assert BitmapBlocks(sb.size) <= 1;
    if x in t.owner && t.owner[x].inum == i {
      FilledAt(s, t, i, x);
      FillingsCount(s, t, i, EndBlock(0, hi));
    }
  }

  /** The bitmap block, and the indirect block if there is one. */
  ghost function Marks(sb: Super, t: Snap, i: nat): set<nat>
    requires i < |t.inode|
  {
    {sb.bmapstart} + if t.inode[i].addrs[NDIRECT] == 0 then {} else {t.inode[i].addrs[NDIRECT] as nat}
  }

  /** A block that file i has gained is in a place where it had none. */
  lemma FilledAt(s: Snap, t: Snap, i: nat, x: nat)
    requires i < |s.inode| == |t.inode| && Extends(s.owner, t.owner, i)
    requires Owned(s.blocks, s.inode, s.owner) && Owned(t.blocks, t.inode, t.owner)
    requires x in t.owner && t.owner[x].inum == i
    ensures x > 0 && (t.owner[x].k == NDIRECT ==> t.inode[i].addrs[NDIRECT] == x)
    ensures t.owner[x].k != NDIRECT ==>
      var k := t.owner[x].k;
      var bn: nat := if k < NDIRECT then k else k - 1;
      && SlotOf(bn) == k && AddrOf(t.blocks, t.inode, i, SlotOf(bn)) == x
      && (x !in s.owner ==> AddrOf(s.blocks, s.inode, i, SlotOf(bn)) == 0)
  {
    DirectAddr(t.blocks, t.inode, i, NDIRECT);
    hide AddrOf;
    var k := t.owner[x].k;
    if AddrOf(s.blocks, s.inode, i, k) != 0 {
      ExtendsAddr(s.blocks, s.inode, s.owner, t.blocks, t.inode, t.owner, i, i, k);
      OnePlace(s.blocks, s.inode, s.owner, i, k, i, k);
    }
  }

  /** Reading some bytes of a file gives no file a hole. */
  lemma FilledDense(sb: Super, reserved: set<nat>, s: Snap, t: Snap, i: nat, lo: nat, hi: nat)
    requires Consistent(sb, reserved, s.blocks, s.inode, s.owner)
           && Consistent(sb, reserved, t.blocks, t.inode, t.owner)
    requires i < |s.inode| == |t.inode| && HolesFilled(sb, s, t, i, lo, hi)
    ensures DenseKept(s.blocks, s.inode, t.blocks, t.inode)
  {
    hide OwnThere, Extends, Touches, FillsLog, AddrOf, Owned, Layout, Marked, Covered;
    FillsKept(s.inode, t.inode, i);
    if Dense(s.blocks, s.inode, i) {
      forall bn | 0 <= bn && bn * BSIZE < t.inode[i].size
        ensures AddrOf(t.blocks, t.inode, i, SlotOf(bn)) != 0
      {
        assert bn < MAXFILE;
        ExtendsAddr(s.blocks, s.inode, s.owner, t.blocks, t.inode, t.owner, i, i, SlotOf(bn));
      }
    }
    OthersDense(s.blocks, s.inode, s.owner, t.blocks, t.inode, t.inode, t.owner, i);
  }

  /** Reading the whole of a file leaves it without holes, gives no file one, and changes nothing stored that is not
      logged: in particular no inode. */
  lemma FilledKeeps(sb: Super, reserved: set<nat>, s: Snap, t: Snap, i: nat)
    requires Consistent(sb, reserved, s.blocks, s.inode, s.owner)
           && Consistent(sb, reserved, t.blocks, t.inode, t.owner)
    requires i < |s.inode| == |t.inode| == sb.ninodes && HolesFilled(sb, s, t, i, 0, s.inode[i].size)
    ensures Dense(t.blocks, t.inode, i) && DenseKept(s.blocks, s.inode, t.blocks, t.inode)
    ensures Carried(reserved, s.blocks, s.owner, t.blocks, t.owner, t.logged) && s.logged <= t.logged
    ensures StoredOthers(sb, s.blocks, t.blocks, i) && DInode(sb, t.blocks, i) == DInode(sb, s.blocks, i)
    ensures t.inode == s.inode <==> OwnThere(s.inode, i, 0, s.inode[i].size)
    ensures SameButAddrs(s.inode, t.inode, i) && AddrsKept(s.inode[i], t.inode[i])
  {
    hide OwnThere, Extends, Touches, FillsLog, AddrOf, Owned, Marked, DInode, StoredOthers, Carried;
    FillsKept(s.inode, t.inode, i);
    FileSystem.Unchanged(sb, reserved, s.blocks, s.owner, t.blocks, t.owner, t.logged, i);
    FilledDense(sb, reserved, s, t, i, 0, s.inode[i].size);
  }

  /** No kind changes, in memory or on the disk. */
  lemma FilledKinds(sb: Super, reserved: set<nat>, s: Snap, t: Snap, i: nat, lo: nat, hi: nat)
    requires Layout(sb, reserved, s.blocks) && i < |s.inode| == |t.inode| == sb.ninodes
    requires HolesFilled(sb, s, t, i, lo, hi) && StoredKinds(sb, s.blocks, s.inode)
    requires FreeBlank(s.inode) && s.inode[i].kind != 0
    ensures StoredKinds(sb, t.blocks, t.inode) && FreeBlank(t.inode)
  {
    hide OwnThere, Extends, Covered, FillsLog, DInode, StoredOthers, StoredKinds;
    FileSystem.Unchanged(sb, reserved, s.blocks, s.owner, t.blocks, t.owner, t.logged, i);
    KindsKept(sb, s.blocks, s.inode, t.blocks, t.inode, i);
  }

  lemma FilledHome(sb: Super, reserved: set<nat>, s: Snap, t: Snap, i: nat, lo: nat, hi: nat)
    requires Consistent(sb, reserved, t.blocks, t.inode, t.owner) && i < |s.inode| && HolesFilled(sb, s, t, i, lo, hi)
    requires Home(sb, reserved, s.logged)
    ensures Home(sb, reserved, t.logged)
  {
    hide Fills, OwnThere, Extends, Covered, Touches, Marked, AddrOf;
  }
}
