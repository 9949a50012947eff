/** The buffer cache: a circular list of buffers in order of last release, over a disk. */
module BufferCache {
  import opened Bytes
  import opened Params
  import opened Sets

  /** bcache.head, the list's sentinel, as an index behind those of bcache.buf. */
  const HEAD: nat := NBUF

  /** The disk. Each write is one atomic step; trace holds the image after every write so far. */
  class Disk {
    var blocks: Image
    ghost var trace: seq<Image>

    constructor (image: Image)
      ensures blocks == image && trace == []
    {
      blocks, trace := image, [];
    }

    method Write(b: nat, s: Sector)
      requires b < |blocks|
      modifies this
      ensures blocks == old(blocks)[b := s] && trace == old(trace) + [blocks]
    {
      blocks := blocks[b := s];
      trace := trace + [blocks];
    }
  }

  /** struct buf. Block -1 stands for the initial device -1, which matches no request. */
  datatype Buf = Buf(block: int, valid: bool, dirty: bool, refcnt: int, locked: bool, data: Sector)
  {
    predicate Busy() { dirty || locked }
  }

  datatype Result = Got(index: nat) | Deadlock | NoBuffers

  // ---------- The list ----------

  /** The k-th element of the list counted from the most recently released; the sentinel on both sides. */
  function At(order: seq<nat>, k: int): nat
  {
    if 0 <= k < |order| then order[k] else HEAD
  }

  /** prev and next link the buffers of order, and only them, into a circle through the sentinel. */
  ghost predicate Ring(order: seq<nat>, prev: seq<nat>, next: seq<nat>)
  {
    && |prev| == NBUF + 1 && |next| == NBUF + 1
    && (forall k :: 0 <= k < |order| ==> order[k] < NBUF)
    && (forall k, l :: 0 <= k < l < |order| ==> order[k] != order[l])
    && (forall k :: -1 <= k < |order| ==> next[At(order, k)] == At(order, k + 1))
    && (forall k :: 0 <= k <= |order| ==> prev[At(order, k)] == At(order, k - 1))
  }

  ghost predicate Complete(order: seq<nat>)
  {
    |order| == NBUF && forall i :: 0 <= i < NBUF ==> i in order
  }

  /** prev and next after b->next->prev = b->prev; b->prev->next = b->next. */
  lemma RingRemove(order: seq<nat>, prev: seq<nat>, next: seq<nat>, k: nat)
    requires Ring(order, prev, next) && k < |order|
    ensures next[order[k]] <= NBUF && prev[order[k]] <= NBUF
    ensures Ring(order[..k] + order[k+1..], prev[next[order[k]] := prev[order[k]]],
                 next[prev[order[k]] := next[order[k]]])
  {
    var r := order[..k] + order[k+1..];
    var b := order[k];
    assert next[At(order, k)] == At(order, k + 1) && prev[At(order, k)] == At(order, k - 1);
    var p, n := prev[next[b] := prev[b]], next[prev[b] := next[b]];
    forall j | -1 <= j < |r|
      ensures n[At(r, j)] == At(r, j + 1)
    {
      var i := if j < k then j else j + 1;
      assert At(r, j) == At(order, i);
      assert next[At(order, i)] == At(order, i + 1);
    }
    forall j | 0 <= j <= |r|
      ensures p[At(r, j)] == At(r, j - 1)
    {
      var i := if j < k then j else j + 1;
      assert At(r, j) == At(order, i);
      assert prev[At(order, i)] == At(order, i - 1);
    }
  }

  /** prev and next after b is inserted behind the sentinel. */
  lemma RingInsert(order: seq<nat>, prev: seq<nat>, next: seq<nat>, b: nat)
    requires Ring(order, prev, next) && b < NBUF && b !in order
    ensures next[HEAD] <= NBUF
    ensures Ring([b] + order, prev[b := HEAD][next[HEAD] := b], next[b := next[HEAD]][HEAD := b])
  {
    var r := [b] + order;
    assert next[At(order, -1)] == At(order, 0);
    var p, n := prev[b := HEAD][next[HEAD] := b], next[b := next[HEAD]][HEAD := b];
    forall j | -1 <= j < |r|
      ensures n[At(r, j)] == At(r, j + 1)
    {
      if j >= 1 {
        assert next[At(order, j - 1)] == At(order, j);
      }
    }
    forall j | 0 <= j <= |r|
      ensures p[At(r, j)] == At(r, j - 1)
    {
      if j >= 1 {
        assert prev[At(order, j - 1)] == At(order, j - 2);
      }
    }
  }

  // ---------- Buffers and blocks ----------

  /** Each block is in at most one buffer, the one home names. */
  ghost predicate Indexed(bufs: seq<Buf>, home: map<nat, nat>, n: nat)
  {
    && |bufs| == NBUF
    && (forall i :: 0 <= i < NBUF ==> bufs[i].block == -1 || 0 <= bufs[i].block < n)
    && (forall i :: 0 <= i < NBUF && bufs[i].block >= 0 ==> bufs[i].block in home && home[bufs[i].block] == i)
    && (forall b :: b in home ==> home[b] < NBUF && bufs[home[b]].block == b)
  }

  ghost predicate Flags(bufs: seq<Buf>)
  {
    forall i :: 0 <= i < |bufs| ==>
      && (bufs[i].dirty ==> bufs[i].valid)
      && (bufs[i].Busy() || bufs[i].valid ==> bufs[i].block >= 0)
      && bufs[i].refcnt == (if bufs[i].locked then 1 else 0)
  }

  /** The abstract state: view is what each block reads as, pinned the dirty blocks, held the locked ones, loose those
      that were changed in their buffer and released without being logged: they read as on disk again once the buffer is
      given to another block. */
  ghost predicate Shows(bufs: seq<Buf>, home: map<nat, nat>, view: Image, disk: Image, pinned: set<nat>, held: set<nat>,
                        loose: set<nat>)
    requires Indexed(bufs, home, |disk|)
  {
    && |view| == |disk|
    && (forall i :: 0 <= i < NBUF && bufs[i].valid && bufs[i].block >= 0 ==> view[bufs[i].block] == bufs[i].data)
    && (forall b :: b in pinned <==> b in home && bufs[home[b]].dirty)
    && (forall b :: b in held <==> b in home && bufs[home[b]].locked)
    && (forall b :: b in loose ==> b in home && bufs[home[b]].valid && b !in pinned)
    && (forall b :: 0 <= b < |disk| && b !in pinned && b !in held && b !in loose ==> view[b] == disk[b])
  }

  /** Distinct buffers hold distinct blocks, so k buffers with blocks in s make s at least that large. */
  lemma {:induction false} BlocksCount(bufs: seq<Buf>, home: map<nat, nat>, n: nat, s: set<nat>, k: nat)
    requires Indexed(bufs, home, n) && k <= NBUF
    requires forall i :: 0 <= i < k ==> bufs[i].block >= 0 && bufs[i].block in s
    ensures |s| >= k
  {
    if k > 0 {
      var b := bufs[k-1].block;
      forall i | 0 <= i < k - 1
        ensures bufs[i].block in s - {b}
      {
        assert home[bufs[i].block] == i;
      }
      BlocksCount(bufs, home, n, s - {b}, k - 1);
    }
  }

  /** Blocks cached in the first k buffers, not counting buffer skip, number at most that many. */
  lemma {:induction false} BusyCount(bufs: seq<Buf>, home: map<nat, nat>, n: nat, s: set<nat>, skip: nat, k: nat)
    requires Indexed(bufs, home, n) && k <= NBUF
    requires forall b :: b in s ==> b in home && home[b] < k && home[b] != skip
    ensures |s| <= if skip < k then k - 1 else k
  {
    if k == 0 {
      assert s == {};
    } else if skip == k - 1 {
      BusyCount(bufs, home, n, s, skip, k - 1);
    } else {
      var b := bufs[k-1].block;
      var r := set x | x in s && home[x] != k - 1;
      BusyCount(bufs, home, n, r, skip, k - 1);
      SubsetSize(s, r + (if b >= 0 then {b as nat} else {}));
    }
  }

  /** Everything Valid says about the buffers, as a property of values. */
  ghost predicate State(bufs: seq<Buf>, home: map<nat, nat>, view: Image, disk: Image, pinned: set<nat>, held: set<nat>,
                        loose: set<nat>)
  {
    Indexed(bufs, home, |disk|) && Flags(bufs) && Shows(bufs, home, view, disk, pinned, held, loose)
  }

  /** Buffer i holds block b from now on, and nothing else. */
  ghost function Rehome(home: map<nat, nat>, i: nat, b: nat): map<nat, nat>
  {
    (map x | x in home && home[x] != i :: home[x])[b := i]
  }

  /** Buffer i is idle, and every buffer released before it is dirty or locked. */
  ghost predicate LeastRecentIdle(bufs: seq<Buf>, order: seq<nat>, i: nat)
  {
    exists k :: 0 <= k < |order| && order[k] == i && i < |bufs| && !bufs[i].Busy()
      && forall l :: k < l < |order| ==> order[l] < |bufs| && bufs[order[l]].Busy()
  }

  /** What blocks read as once the buffer of this one is given away. */
  ghost function Settled(view: Image, disk: Image, loose: set<nat>, block: int): (v: Image)
    ensures |v| == |view|
  {
    if 0 <= block < |view| && block < |disk| && block in loose then view[block := disk[block]] else view
  }

  ghost function Dropped(loose: set<nat>, block: int): set<nat>
  {
    set b | b in loose && b != block
  }

  /** A buffer that is released: its block is loose if it was changed and is neither logged nor as on disk. */
  ghost function Released(view: Image, disk: Image, loose: set<nat>, b: Buf): set<nat>
  {
    if b.dirty || !(0 <= b.block < |view| && b.block < |disk|) || view[b.block] == disk[b.block] then loose
    else loose + {b.block as nat}
  }

  /** Only blocks that were loose, and no longer are, may read differently. */
  ghost predicate SameButDropped(view: Image, view': Image, loose: set<nat>, loose': set<nat>)
  {
    && |view'| == |view| && loose' <= loose
    && forall b :: 0 <= b < |view| && (b !in loose || b in loose') ==> view'[b] == view[b]
  }

  lemma SameNone(view: Image, loose: set<nat>)
    ensures SameButDropped(view, view, loose, loose)
  {
  }

  lemma SameTwice(view: Image, view': Image, view'': Image, loose: set<nat>, loose': set<nat>, loose'': set<nat>)
    requires SameButDropped(view, view', loose, loose') && SameButDropped(view', view'', loose', loose'')
    ensures SameButDropped(view, view'', loose, loose'')
  {
  }

  /** What is not loose, or stays so, reads the same. */
  lemma SameAt(view: Image, view': Image, loose: set<nat>, loose': set<nat>, s: set<nat>)
    requires SameButDropped(view, view', loose, loose') && s * loose <= loose'
    ensures |view'| == |view| && loose' <= loose && forall b :: b in s && b < |view| ==> view'[b] == view[b]
  {
  }

  lemma SettledSame(view: Image, disk: Image, loose: set<nat>, block: int)
    ensures SameButDropped(view, Settled(view, disk, loose, block), loose, Dropped(loose, block))
  {
  }

  /** A cached buffer is locked. */
  lemma StateHit(bufs: seq<Buf>, home: map<nat, nat>, view: Image, disk: Image, pinned: set<nat>, held: set<nat>,
                 loose: set<nat>, i: nat)
    requires State(bufs, home, view, disk, pinned, held, loose) && i < NBUF && bufs[i].block >= 0 && !bufs[i].locked
    ensures State(bufs[i := bufs[i].(refcnt := bufs[i].refcnt + 1, locked := true)], home, view, disk, pinned,
                  held + {bufs[i].block as nat}, loose)
  {
  }

  lemma IndexRecycle(bufs: seq<Buf>, home: map<nat, nat>, n: nat, i: nat, b: nat)
    requires Indexed(bufs, home, n) && i < NBUF && b < n && b !in home
    ensures Indexed(bufs[i := Buf(b, false, false, 1, true, bufs[i].data)], Rehome(home, i, b), n)
  {
  }

  lemma ShowsRecycle(bufs: seq<Buf>, home: map<nat, nat>, view: Image, disk: Image, pinned: set<nat>, held: set<nat>,
                     loose: set<nat>, i: nat, b: nat)
    requires State(bufs, home, view, disk, pinned, held, loose) && i < NBUF && !bufs[i].Busy() && b < |disk|
           && b !in home
    requires Indexed(bufs[i := Buf(b, false, false, 1, true, bufs[i].data)], Rehome(home, i, b), |disk|)
    ensures Shows(bufs[i := Buf(b, false, false, 1, true, bufs[i].data)], Rehome(home, i, b),
                  Settled(view, disk, loose, bufs[i].block), disk, pinned, held + {b}, Dropped(loose, bufs[i].block))
  {
  }

  /** A buffer that is neither dirty nor locked is given to a block that is not cached. */
  lemma StateRecycle(bufs: seq<Buf>, home: map<nat, nat>, view: Image, disk: Image, pinned: set<nat>, held: set<nat>,
                     loose: set<nat>, i: nat, b: nat)
    requires State(bufs, home, view, disk, pinned, held, loose) && i < NBUF && !bufs[i].Busy() && b < |disk|
           && b !in home
    ensures State(bufs[i := Buf(b, false, false, 1, true, bufs[i].data)],
                  Rehome(home, i, b), Settled(view, disk, loose, bufs[i].block), disk, pinned, held + {b},
                  Dropped(loose, bufs[i].block))
  {
    IndexRecycle(bufs, home, |disk|, i, b);
    ShowsRecycle(bufs, home, view, disk, pinned, held, loose, i, b);
  }

  lemma NotCached(bufs: seq<Buf>, home: map<nat, nat>, n: nat, b: nat)
    requires Indexed(bufs, home, n) && forall i :: 0 <= i < NBUF ==> bufs[i].block != b
    ensures b !in home
  {
  }

  /** Reading from disk shows what the block read as before. */
  lemma StateFill(bufs: seq<Buf>, home: map<nat, nat>, view: Image, disk: Image, pinned: set<nat>, held: set<nat>,
                  loose: set<nat>, i: nat)
    requires State(bufs, home, view, disk, pinned, held, loose) && i < NBUF && bufs[i].locked && !bufs[i].valid
    requires view[bufs[i].block] == disk[bufs[i].block]
    ensures State(bufs[i := bufs[i].(valid := true, data := disk[bufs[i].block])], home, view, disk, pinned, held,
                  loose)
  {
  }

  lemma StateSet(bufs: seq<Buf>, home: map<nat, nat>, view: Image, disk: Image, pinned: set<nat>, held: set<nat>,
                 loose: set<nat>, i: nat, s: Sector)
    requires State(bufs, home, view, disk, pinned, held, loose) && i < NBUF && bufs[i].locked
    ensures State(bufs[i := bufs[i].(data := s)], home, view[bufs[i].block := s], disk, pinned, held, loose)
  {
  }

  lemma StateDirty(bufs: seq<Buf>, home: map<nat, nat>, view: Image, disk: Image, pinned: set<nat>, held: set<nat>,
                   loose: set<nat>, i: nat)
    requires State(bufs, home, view, disk, pinned, held, loose) && i < NBUF && bufs[i].locked && bufs[i].valid
    ensures State(bufs[i := bufs[i].(dirty := true)], home, view, disk, pinned + {bufs[i].block as nat}, held,
                  loose - {bufs[i].block as nat})
  {
  }

  lemma StateWrite(bufs: seq<Buf>, home: map<nat, nat>, view: Image, disk: Image, pinned: set<nat>, held: set<nat>,
                   loose: set<nat>, i: nat)
    requires State(bufs, home, view, disk, pinned, held, loose) && i < NBUF && bufs[i].locked && bufs[i].valid
    ensures State(bufs[i := bufs[i].(valid := true, dirty := false)], home, view, disk[bufs[i].block := bufs[i].data],
                  pinned - {bufs[i].block as nat}, held, loose - {bufs[i].block as nat})
  {
  }

  lemma StateRelease(bufs: seq<Buf>, home: map<nat, nat>, view: Image, disk: Image, pinned: set<nat>, held: set<nat>,
                     loose: set<nat>, i: nat)
    requires State(bufs, home, view, disk, pinned, held, loose) && i < NBUF && bufs[i].locked
    requires bufs[i].valid && 0 <= bufs[i].block < |disk| == |view|
    ensures State(bufs[i := bufs[i].(refcnt := bufs[i].refcnt - 1, locked := false)], home, view, disk, pinned,
                  held - {bufs[i].block as nat}, Released(view, disk, loose, bufs[i]))
  {
  }

  /** bget finds every buffer busy exactly when NBUF blocks are dirty or locked. */
  lemma AllBusy(bufs: seq<Buf>, home: map<nat, nat>, view: Image, disk: Image, pinned: set<nat>, held: set<nat>,
                loose: set<nat>)
    requires State(bufs, home, view, disk, pinned, held, loose)
    ensures (forall i :: 0 <= i < NBUF ==> bufs[i].Busy()) <==> |pinned + held| == NBUF
    ensures |pinned + held| <= NBUF
    ensures |pinned + held| == NBUF ==> pinned + held == home.Keys
  {
    BusyCount(bufs, home, |disk|, pinned + held, NBUF, NBUF);
    if forall i :: 0 <= i < NBUF ==> bufs[i].Busy() {
      BlocksCount(bufs, home, |disk|, pinned + held, NBUF);
    } else {
      var i :| 0 <= i < NBUF && !bufs[i].Busy();
      BusyCount(bufs, home, |disk|, pinned + held, i, NBUF);
    }
  }

  class Cache {
    const buf: array<Buf>
    const prev: array<nat>
    const next: array<nat>
    const disk: Disk
    ghost var order: seq<nat>
    ghost var home: map<nat, nat>
    ghost var view: Image
    ghost var pinned: set<nat>
    ghost var held: set<nat>
    ghost var loose: set<nat>

    ghost predicate Valid()
      reads this, buf, prev, next, disk
    {
      && prev != next
      && Ring(order, prev[..], next[..]) && Complete(order)
      && State(buf[..], home, view, disk.blocks, pinned, held, loose)
    }

    /** binit: every buffer empty and on the list, the last one in front. */
    constructor (disk: Disk)
      ensures Valid() && this.disk == disk && fresh(buf) && fresh(prev) && fresh(next)
      ensures view == disk.blocks && pinned == {} && held == {} && loose == {}
    {
      this.disk := disk;
      buf := new Buf[NBUF](_ => Buf(-1, false, false, 0, false, ZeroSector()));
      prev := new nat[NBUF + 1](_ => HEAD);
      next := new nat[NBUF + 1](_ => HEAD);
      order, home, view, pinned, held, loose := [], map[], disk.blocks, {}, {}, {};
      new;
      var b := 0;
      while b < NBUF
        invariant b <= NBUF && prev != next && |order| == b
        invariant Ring(order, prev[..], next[..])
        invariant forall i :: 0 <= i < b ==> i in order
        invariant forall i :: 0 <= i < b ==> order[i] < b
        invariant buf[..] == seq(NBUF, _ => Buf(-1, false, false, 0, false, ZeroSector()))
        invariant home == map[] && view == disk.blocks && pinned == {} && held == {} && loose == {}
      {
        PushFront(b);
        b := b + 1;
      }
    }

    /** b->next = head.next; b->prev = &head; head.next->prev = b; head.next = b. */
    method PushFront(b: nat)
      requires prev != next && Ring(order, prev[..], next[..]) && b < NBUF && b !in order
      modifies prev, next, this`order
      ensures order == [b] + old(order) && Ring(order, prev[..], next[..])
    {
      RingInsert(order, prev[..], next[..], b);
      ghost var p, n := prev[..][b := HEAD][next[HEAD] := b], next[..][b := next[HEAD]][HEAD := b];
      next[b] := next[HEAD];
      prev[b] := HEAD;
      prev[next[HEAD]] := b;
      next[HEAD] := b;
      order := [b] + order;
      assert prev[..] == p && next[..] == n;
    }

    /** b->next->prev = b->prev; b->prev->next = b->next. */
    method Unlink(b: nat, ghost k: nat)
      requires prev != next && Ring(order, prev[..], next[..]) && k < |order| && order[k] == b
      modifies prev, next, this`order
      ensures order == old(order[..k] + order[k+1..]) && Ring(order, prev[..], next[..])
    {
      RingRemove(order, prev[..], next[..], k);
      ghost var p, n := prev[..][next[b] := prev[b]], next[..][prev[b] := next[b]];
      prev[next[b]] := prev[b];
      next[prev[b]] := next[b];
      order := order[..k] + order[k+1..];
      assert prev[..] == p && next[..] == n;
    }

    /** A block that is neither dirty nor locked nor loose reads as it is on disk. */
    lemma CleanAgrees()
      requires Valid()
      ensures |view| == |disk.blocks| && buf.Length == NBUF
      ensures forall b :: 0 <= b < |view| && b !in pinned && b !in held && b !in loose ==> view[b] == disk.blocks[b]
      ensures pinned !! loose
    {
    }

    lemma CachedInRange(i: nat)
      requires Valid() && i < NBUF
      ensures buf[i].block == -1 || 0 <= buf[i].block < |disk.blocks|
      ensures buf[i].valid ==> buf[i].block >= 0
    {
      assert buf[..][i] == buf[i];
    }

    lemma CountBusy()
      requires Valid()
      ensures (forall i :: 0 <= i < NBUF ==> buf[i].Busy()) <==> |pinned + held| == NBUF
      ensures |pinned + held| <= NBUF && (|pinned + held| == NBUF ==> pinned + held == home.Keys)
      ensures forall b :: b in held + pinned ==> b in home
      ensures forall i :: 0 <= i < NBUF && buf[i].block >= 0 ==> (buf[i].locked <==> buf[i].block as nat in held)
      ensures forall i :: 0 <= i < NBUF && buf[i].block >= 0 ==> (buf[i].dirty <==> buf[i].block as nat in pinned)
      ensures forall i :: 0 <= i < NBUF && buf[i].block >= 0 ==> buf[i].block as nat in home && home[buf[i].block] == i
    {
      AllBusy(buf[..], home, view, disk.blocks, pinned, held, loose);
      assert forall i :: 0 <= i < NBUF ==> buf[..][i] == buf[i];
    }

    /** bget's first loop: the buffer holding block b, searched from the most recently released on. */
    method FindCached(b: nat) returns (i: nat)
      requires Valid() && b < |view|
      ensures if b in home then i == home[b] && i < NBUF && buf[i].block == b else i == HEAD
    {
      ghost var k := 0;
      assert next[..][At(order, -1)] == At(order, 0);
      i := next[HEAD];
      while i != HEAD
        invariant 0 <= k <= NBUF && i == At(order, k)
        invariant forall l :: 0 <= l < k ==> buf[order[l]].block != b
        decreases NBUF - k
      {
        if buf[i].block == b {
          return;
        }
        assert next[..][At(order, k)] == At(order, k + 1);
        i := next[i];
        k := k + 1;
      }
      forall j | 0 <= j < NBUF
        ensures buf[j].block != b
      {
        assert j in order;
      }
      NotCached(buf[..], home, |view|, b);
    }

    /** bget's second loop: the least recently released buffer that is neither dirty nor locked. */
    method FindIdle() returns (i: nat)
      requires Valid()
      ensures i <= HEAD && (i == HEAD <==> forall j :: 0 <= j < NBUF ==> buf[j].Busy())
      ensures i != HEAD ==> !buf[i].Busy() && LeastRecentIdle(buf[..], order, i)
    {
      ghost var k := NBUF - 1;
      assert prev[..][At(order, NBUF)] == At(order, NBUF - 1);
      i := prev[HEAD];
      while i != HEAD
        invariant -1 <= k < NBUF && i == At(order, k)
        invariant forall l :: k < l < NBUF ==> buf[order[l]].Busy()
        decreases k
      {
        if !buf[i].locked && !buf[i].dirty {
          return;
        }
        assert prev[..][At(order, k)] == At(order, k - 1);
        i := prev[i];
        k := k - 1;
      }
      forall j | 0 <= j < NBUF
        ensures buf[j].Busy()
      {
        assert j in order;
        ghost var l :| 0 <= l < NBUF && order[l] == j;
      }
    }

    /** Give the locked or recycled buffer for block b. Waiting for a block that this process has locked itself
        would never end; with every buffer busy the kernel panics. */
    method Bget(b: nat) returns (r: Result)
      requires Valid() && b < |view|
      modifies this`home, this`held, this`view, this`loose, buf
      ensures Valid() && SameButDropped(old(view), view, old(loose), loose)
      ensures r == Deadlock <==> b in old(held)
      ensures r == NoBuffers <==> b !in old(held + pinned) && |old(pinned + held)| == NBUF
      ensures r.Got? ==> r.index < NBUF && buf[r.index].block == b && buf[r.index].locked && held == old(held) + {b}
      ensures r.Got? ==> !old(buf[r.index]).locked
      ensures r.Got? && old(b in home) ==> r.index == old(home[b]) && buf[r.index].data == old(buf[r.index].data)
      ensures r.Got? ==> buf[r.index].dirty == (b in pinned)
      ensures r.Got? && old(b !in home) ==> LeastRecentIdle(old(buf[..]), order, r.index)
      ensures r.Got? ==> forall j :: 0 <= j < NBUF && j != r.index ==> buf[j] == old(buf[j])
      ensures !r.Got? ==> buf[..] == old(buf[..]) && held == old(held) && view == old(view) && loose == old(loose)
      ensures (b in loose <==> b in old(loose)) && old(loose * held) <= loose
    {
      CountBusy();
      hide Valid, LeastRecentIdle, SameButDropped;
      SameNone(view, loose);
      var i := FindCached(b);
      if i != HEAD {
        if buf[i].locked {
          return Deadlock;
        }
        Reuse(i);
        return Got(i);
      }
      i := FindIdle();
      if i == HEAD {
        return NoBuffers;
      }
      Recycle(i, b);
      return Got(i);
    }

    /** Lock buffer i for the block it holds. */
    method Reuse(i: nat)
      requires Valid() && i < NBUF && buf[i].block >= 0 && !buf[i].locked
      modifies this`held, buf
      ensures Valid() && held == old(held) + {buf[i].block as nat}
      ensures buf[i] == old(buf[i]).(refcnt := buf[i].refcnt, locked := true)
      ensures forall j :: 0 <= j < NBUF && j != i ==> buf[j] == old(buf[j])
    {
      StateHit(buf[..], home, view, disk.blocks, pinned, held, loose, i);
      ghost var bufs := buf[..][i := buf[i].(refcnt := buf[i].refcnt + 1, locked := true)];
      buf[i] := buf[i].(refcnt := buf[i].refcnt + 1, locked := true);
      held := held + {buf[i].block as nat};
      assert buf[..] == bufs;
    }

    /** Lock idle buffer i for block b, without contents. */
    method Recycle(i: nat, b: nat)
      requires Valid() && i < NBUF && !buf[i].Busy() && b < |view| && b !in home
      modifies this`home, this`held, this`view, this`loose, buf
      ensures Valid() && held == old(held) + {b}
      ensures SameButDropped(old(view), view, old(loose), loose) && b !in old(loose) + loose
            && old(loose * held) <= loose
      ensures buf[i] == Buf(b, false, false, 1, true, old(buf[i]).data)
      ensures forall j :: 0 <= j < NBUF && j != i ==> buf[j] == old(buf[j])
    {
      StateRecycle(buf[..], home, view, disk.blocks, pinned, held, loose, i, b);
      ghost var bufs := buf[..][i := Buf(b, false, false, 1, true, buf[i].data)];
      SettledSame(view, disk.blocks, loose, buf[i].block);
      view, loose := Settled(view, disk.blocks, loose, buf[i].block), Dropped(loose, buf[i].block);
      home := Rehome(home, i, b);
      held := held + {b};
      buf[i] := Buf(b, false, false, 1, true, buf[i].data);
      assert buf[..] == bufs;
    }

    /** A locked buffer with the contents of block b: the latest logged ones, or else those on disk. */
    method Bread(b: nat) returns (r: Result)
      requires Valid() && b < |view|
      modifies this`home, this`held, this`view, this`loose, buf
      ensures Valid() && SameButDropped(old(view), view, old(loose), loose)
      ensures r == Deadlock <==> b in old(held)
      ensures r == NoBuffers <==> b !in old(held + pinned) && |old(pinned + held)| == NBUF
      ensures r.Got? ==> r.index < NBUF && buf[r.index].block == b && buf[r.index].locked && held == old(held) + {b}
      ensures r.Got? ==> buf[r.index].valid && buf[r.index].data == view[b] && buf[r.index].dirty == (b in pinned)
      ensures |view| == |disk.blocks|
      ensures r.Got? ==> forall j :: 0 <= j < NBUF && old(buf[j]).locked ==> j != r.index && buf[j] == old(buf[j])
      ensures !r.Got? ==> buf[..] == old(buf[..]) && held == old(held) && view == old(view) && loose == old(loose)
      ensures (b in loose <==> b in old(loose)) && old(loose * held) <= loose
    {
      r := Bget(b);
      if r.Got? {
        Sdrw(r.index);
      }
    }

    /** sdrw on a buffer without contents: read them from the disk. */
    method Sdrw(i: nat)
      requires Valid() && i < NBUF && buf[i].locked
      requires buf[i].block as nat !in pinned && !buf[i].valid ==> view[buf[i].block] == disk.blocks[buf[i].block]
      modifies buf
      ensures Valid() && buf[i].valid && buf[i] == old(buf[i]).(valid := true, data := view[buf[i].block])
      ensures forall j :: 0 <= j < NBUF && j != i ==> buf[j] == old(buf[j])
    {
      assert Flags(buf[..]);
      if !buf[i].valid {
        StateFill(buf[..], home, view, disk.blocks, pinned, held, loose, i);
        ghost var bufs := buf[..][i := buf[i].(valid := true, data := disk.blocks[buf[i].block])];
        buf[i] := buf[i].(valid := true, data := disk.blocks[buf[i].block]);
        assert buf[..] == bufs;
      }
    }

    /** The caller changes the data of a buffer it has locked. */
    method SetData(i: nat, s: Sector)
      requires Valid() && i < NBUF && buf[i].locked
      modifies this`view, buf
      ensures Valid() && buf[i] == old(buf[i]).(data := s)
      ensures view == old(view)[buf[i].block := s]
      ensures forall j :: 0 <= j < NBUF && j != i ==> buf[j] == old(buf[j])
    {
      StateSet(buf[..], home, view, disk.blocks, pinned, held, loose, i, s);
      ghost var bufs := buf[..][i := buf[i].(data := s)];
      view := view[buf[i].block := s];
      buf[i] := buf[i].(data := s);
      assert buf[..] == bufs;
    }

    /** b->flags |= B_DIRTY: the buffer is pinned until it is written. */
    method Pin(i: nat)
      requires Valid() && i < NBUF && buf[i].locked && buf[i].valid
      modifies this`pinned, this`loose, buf
      ensures Valid() && buf[i] == old(buf[i]).(dirty := true) && pinned == old(pinned) + {buf[i].block as nat}
      ensures loose == old(loose) - {buf[i].block as nat}
      ensures forall j :: 0 <= j < NBUF && j != i ==> buf[j] == old(buf[j])
    {
      StateDirty(buf[..], home, view, disk.blocks, pinned, held, loose, i);
      ghost var bufs := buf[..][i := buf[i].(dirty := true)];
      pinned, loose := pinned + {buf[i].block as nat}, loose - {buf[i].block as nat};
      buf[i] := buf[i].(dirty := true);
      assert buf[..] == bufs;
    }

    /** Write the buffer's contents to disk; it is clean afterwards. */
    method Bwrite(i: nat)
      requires Valid() && i < NBUF && buf[i].locked && buf[i].valid
      modifies this`pinned, this`loose, buf, disk
      ensures Valid() && buf[i] == old(buf[i]).(dirty := false) && pinned == old(pinned) - {buf[i].block as nat}
      ensures loose == old(loose) - {buf[i].block as nat}
      ensures disk.blocks == old(disk.blocks)[buf[i].block := buf[i].data]
      ensures disk.trace == old(disk.trace) + [disk.blocks]
      ensures forall j :: 0 <= j < NBUF && j != i ==> buf[j] == old(buf[j])
    {
      StateWrite(buf[..], home, view, disk.blocks, pinned, held, loose, i);
      ghost var bufs := buf[..][i := buf[i].(valid := true, dirty := false)];
      disk.Write(buf[i].block, buf[i].data);
      pinned, loose := pinned - {buf[i].block as nat}, loose - {buf[i].block as nat};
      buf[i] := buf[i].(valid := true, dirty := false);
      assert buf[..] == bufs;
    }

    /** Unlock the buffer and move it to the front of the list. If it was changed and not logged, its block is loose. */
    method Brelse(i: nat)
      requires Valid() && i < NBUF && buf[i].locked && buf[i].valid
      modifies this`order, this`held, this`loose, buf, prev, next
      ensures loose == Released(view, disk.blocks, old(loose), buf[i])
      ensures Valid() && held == old(held) - {buf[i].block as nat}
      ensures buf[i] == old(buf[i]).(locked := false, refcnt := 0)
      ensures forall j :: 0 <= j < NBUF && j != i ==> buf[j] == old(buf[j])
      ensures exists k :: 0 <= k < NBUF && old(order)[k] == i && order == [i] + (old(order)[..k] + old(order)[k+1..])
    {
      StateRelease(buf[..], home, view, disk.blocks, pinned, held, loose, i);
      ghost var bufs := buf[..][i := buf[i].(refcnt := buf[i].refcnt - 1, locked := false)];
      loose := Released(view, disk.blocks, loose, buf[i]);
      held := held - {buf[i].block as nat};
      buf[i] := buf[i].(refcnt := buf[i].refcnt - 1, locked := false);
      assert buf[..] == bufs;
      assert Flags(bufs) && bufs[i] == buf[i];
      hide State, Flags, Indexed, Released;
      if buf[i].refcnt == 0 {
        MoveToFront(i);
      }
    }

    method MoveToFront(i: nat)
      requires prev != next && Ring(order, prev[..], next[..]) && Complete(order) && i < NBUF
      modifies this`order, prev, next
      ensures Ring(order, prev[..], next[..]) && Complete(order)
      ensures exists k :: 0 <= k < NBUF && old(order)[k] == i && order == [i] + (old(order)[..k] + old(order)[k+1..])
    {
      ghost var o := order;
      assert i in order;
      ghost var k :| 0 <= k < NBUF && order[k] == i;
      Unlink(i, k);
      PushFront(i);
      forall x | 0 <= x < NBUF
        ensures x in order
      {
        assert x in o;
        ghost var l :| 0 <= l < NBUF && o[l] == x;
        assert order[if l < k then l + 1 else if l == k then 0 else l] == x;
      }
    }
  }
}
