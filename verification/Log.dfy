/** The log's code over the buffer cache: every method writes exactly the images that Redo describes. */
module Log {
  import opened Bytes
  import opened Params
  import opened Redo
  import opened Sets
  import opened BufferCache
  import GroupCommit

  /** The images after writes 1..k of a commit. */
  ghost function CommitImages(a: Area, d: Image, view: Image, hdr: seq<Word>, k: nat): (r: seq<Image>)
    requires a.start + |hdr| < |d| == |view| && |hdr| < NWORDS && k <= 2 * |hdr| + 2
    requires forall i :: 0 <= i < |hdr| ==> hdr[i] < |d|
    ensures |r| == k && forall j :: 0 <= j < k ==> r[j] == CommitImage(a, d, view, hdr, j + 1)
  {
    seq(k, j requires 0 <= j < k => CommitImage(a, d, view, hdr, j + 1))
  }

  /** The images after writes 1..k of a recovery. */
  ghost function RecoveryImages(a: Area, d: Image, hdr: seq<Word>, k: nat): (r: seq<Image>)
    requires a.start + |hdr| < |d| && k <= |hdr| + 1
    requires forall i :: 0 <= i < |hdr| ==> hdr[i] < |d|
    ensures |r| == k && forall j :: 0 <= j < k ==> r[j] == RecoveryImage(a, d, hdr, j + 1)
  {
    seq(k, j requires 0 <= j < k => RecoveryImage(a, d, hdr, j + 1))
  }

  /** The images after installing entries 1..k. */
  ghost function InstallImages(a: Area, d: Image, hdr: seq<Word>, k: nat): (r: seq<Image>)
    requires a.start + |hdr| < |d| && k <= |hdr|
    requires forall i :: 0 <= i < |hdr| ==> hdr[i] < |d|
    ensures |r| == k && forall j :: 0 <= j < k ==> r[j] == Install(a, d, hdr, j + 1)
  {
    seq(k, j requires 0 <= j < k => Install(a, d, hdr, j + 1))
  }

  lemma InstallStart(a: Area, d: Image, hdr: seq<Word>)
    requires a.start + |hdr| < |d| && forall i :: 0 <= i < |hdr| ==> hdr[i] < |d|
    ensures Install(a, d, hdr, 0) == d && InstallImages(a, d, hdr, 0) == []
  {
  }

  lemma InstallNext(a: Area, d: Image, hdr: seq<Word>, t: nat)
    requires a.start + |hdr| < |d| && t < |hdr| && forall i :: 0 <= i < |hdr| ==> hdr[i] < |d|
    ensures var p := Install(a, d, hdr, t); Install(a, d, hdr, t + 1) == p[hdr[t] := p[a.start + t + 1]]
    ensures InstallImages(a, d, hdr, t + 1) == InstallImages(a, d, hdr, t) + [Install(a, d, hdr, t + 1)]
  {
  }

  lemma CommitImagesNext(a: Area, d: Image, view: Image, hdr: seq<Word>, k: nat)
    requires a.start + |hdr| < |d| == |view| && |hdr| < NWORDS && k < 2 * |hdr| + 2
    requires forall i :: 0 <= i < |hdr| ==> hdr[i] < |d|
    ensures CommitImages(a, d, view, hdr, k + 1)
          == CommitImages(a, d, view, hdr, k) + [CommitImage(a, d, view, hdr, k + 1)]
  {
  }

  /** A slot is one more write of the sequence. */
  lemma SlotNext(a: Area, d: Image, view: Image, hdr: seq<Word>, t: nat)
    requires a.start + |hdr| < |d| == |view| && |hdr| < NWORDS && t < |hdr|
    requires forall i :: 0 <= i < |hdr| ==> hdr[i] < |d|
    ensures CommitImage(a, d, view, hdr, t + 1) == CommitImage(a, d, view, hdr, t)[a.start + t + 1 := view[hdr[t]]]
    ensures CommitImages(a, d, view, hdr, t + 1)
          == CommitImages(a, d, view, hdr, t) + [CommitImage(a, d, view, hdr, t + 1)]
    ensures CommitImage(a, d, view, hdr, 0) == d && CommitImages(a, d, view, hdr, 0) == []
  {
    CommitImagesNext(a, d, view, hdr, t);
  }

  lemma Grouped(x: seq<Image>, y: seq<Image>, z: seq<Image>)
    ensures (x + y) + z == x + (y + z)
  {
  }

  /** The installs that follow the header write are those of the filled log c. */
  lemma {:induction false} CommitImagesInstall(a: Area, d: Image, view: Image, hdr: seq<Word>, c: Image, j: nat)
    requires |d| == |view| && GoodEntries(a, |d|, hdr) && c == CommitImage(a, d, view, hdr, |hdr| + 1) && j <= |hdr|
    ensures CommitImages(a, d, view, hdr, |hdr| + 1 + j)
         == CommitImages(a, d, view, hdr, |hdr| + 1) + InstallImages(a, c, hdr, j)
  {
    hide CommitImage, CommitImages, Install, InstallImages, Distinct;
    InstallStart(a, c, hdr);
    if j > 0 {
      CommitImagesInstall(a, d, view, hdr, c, j - 1);
      CommitImagesNext(a, d, view, hdr, |hdr| + j);
      CommitInstalls(a, d, view, hdr, |hdr| + 1 + j);
      InstallNext(a, c, hdr, j - 1);
    }
  }

  /** The images of a recovery: the installs, then the cleared header. */
  lemma RecoveryTrace(a: Area, d: Image, hdr: seq<Word>)
    requires GoodEntries(a, |d|, hdr)
    ensures RecoveryImages(a, d, hdr, |hdr| + 1)
         == InstallImages(a, d, hdr, |hdr|) + [RecoveryImage(a, d, hdr, |hdr| + 1)]
  {
    hide Install;
  }

  /** The images of a commit from the header write on. */
  ghost function GroupImages(a: Area, d: Image, view: Image, hdr: seq<Word>): seq<Image>
    requires |d| == |view| && GoodEntries(a, |d|, hdr)
  {
    [CommitImage(a, d, view, hdr, |hdr| + 1)]
    + InstallImages(a, CommitImage(a, d, view, hdr, |hdr| + 1), hdr, |hdr|)
    + [CommitImage(a, d, view, hdr, 2 * |hdr| + 2)]
  }

  lemma GroupTrace(a: Area, d: Image, view: Image, hdr: seq<Word>)
    requires |d| == |view| && GoodEntries(a, |d|, hdr)
    ensures CommitImages(a, d, view, hdr, 2 * |hdr| + 2)
          == CommitImages(a, d, view, hdr, |hdr|) + GroupImages(a, d, view, hdr)
  {
    hide CommitImage, CommitImages, Install, InstallImages, Distinct;
    var n, c := |hdr|, CommitImage(a, d, view, hdr, |hdr| + 1);
    CommitImagesInstall(a, d, view, hdr, c, n);
    CommitImagesNext(a, d, view, hdr, 2 * n + 1);
    CommitImagesNext(a, d, view, hdr, n);
  }

  /** The images of a commit are those for what the cache has for the listed blocks. */
  lemma OnlyListedImages(a: Area, d: Image, v: Image, hdr: seq<Word>, k: nat)
    requires |d| == |v| && a.start + |hdr| < |d| && |hdr| < NWORDS && k <= 2 * |hdr| + 2
    requires forall i :: 0 <= i < |hdr| ==> hdr[i] < |d|
    ensures CommitImages(a, d, v, hdr, k) == CommitImages(a, d, Written(d, v, hdr), hdr, k)
  {
    hide Written, CommitImage;
    forall j | 0 <= j < k
      ensures CommitImages(a, d, v, hdr, k)[j] == CommitImages(a, d, Written(d, v, hdr), hdr, k)[j]
    {
      OnlyListed(a, d, v, hdr, j + 1);
    }
  }

  lemma InRange(a: Area, n: nat, hdr: seq<Word>)
    requires GoodEntries(a, n, hdr)
    ensures a.start + |hdr| < n && |hdr| < NWORDS && forall i :: 0 <= i < |hdr| ==> hdr[i] < n
  {
  }

  lemma SameCommit(a: Area, trace: seq<Image>, d: Image, v: Image, hdr: seq<Word>)
    requires |d| == |v| && GoodEntries(a, |d|, hdr)
    ensures trace + CommitImages(a, d, v, hdr, |hdr|) + GroupImages(a, d, v, hdr)
         == trace + CommitImages(a, d, Written(d, v, hdr), hdr, 2 * |hdr| + 2)
    ensures CommitImage(a, d, v, hdr, 2 * |hdr| + 2) == CommitImage(a, d, Written(d, v, hdr), hdr, 2 * |hdr| + 2)
  {
    hide *;
    InRange(a, |d|, hdr);
    GroupTrace(a, d, v, hdr);
    OnlyListedImages(a, d, v, hdr, 2 * |hdr| + 2);
    OnlyListed(a, d, v, hdr, 2 * |hdr| + 2);
    Grouped(trace, CommitImages(a, d, v, hdr, |hdr|), GroupImages(a, d, v, hdr));
  }

  ghost function Elements(hdr: seq<Word>): set<nat>
  {
    set i | 0 <= i < |hdr| :: hdr[i] as nat
  }

  lemma {:induction false} ElementsSize(hdr: seq<Word>)
    requires Distinct(hdr)
    ensures |Elements(hdr)| == |hdr|
  {
    if hdr != [] {
      var p := hdr[..|hdr|-1];
      ElementsSize(p);
      assert Elements(hdr) == Elements(p) + {hdr[|hdr|-1] as nat};
    }
  }

  lemma ElementsAppend(hdr: seq<Word>, b: Word)
    ensures Elements(GroupCommit.Append(hdr, b)) == Elements(hdr) + {b as nat}
  {
    var r := GroupCommit.Append(hdr, b);
    if b !in hdr {
      assert r[|hdr|] == b && forall i :: 0 <= i < |hdr| ==> r[i] == hdr[i];
    } else {
      var i :| 0 <= i < |hdr| && hdr[i] == b;
    }
  }

  /** The elements of a tail, one at a time. */
  lemma ElementsStep(hdr: seq<Word>)
    requires Distinct(hdr) && hdr != []
    ensures Elements(hdr) - {hdr[0] as nat} == Elements(hdr[1..])
    ensures |Elements(hdr)| == |hdr| && hdr[0] as nat in Elements(hdr)
    ensures forall b :: b in Elements(hdr) ==> exists i :: 0 <= i < |hdr| && hdr[i] == b
  {
    ElementsSize(hdr);
    assert hdr == [hdr[0]] + hdr[1..];
  }

  lemma NoElements()
    ensures Elements([]) == {}
  {
  }

  /** What is still pinned when t entries are installed. */
  lemma PinnedNext(a: Area, n: nat, hdr: seq<Word>, t: nat)
    requires GoodEntries(a, n, hdr) && t < |hdr|
    ensures Elements(hdr[t..]) - {hdr[t] as nat} == Elements(hdr[t + 1..]) && hdr[t] as nat in Elements(hdr[t..])
    ensures |Elements(hdr[t..])| == |hdr| - t && a.start + t + 1 !in Elements(hdr[t..])
  {
    assert hdr[t..][0] == hdr[t] && hdr[t..][1..] == hdr[t + 1..];
    ElementsStep(hdr[t..]);
    assert a.Inside(a.start + t + 1);
  }

  lemma NoneHeld(pinned: set<nat>, x: nat)
    ensures {} + pinned == pinned && pinned + {} == pinned && {} + {x} == {x}
    ensures |pinned + {x}| <= |pinned| + 1
  {
  }

  class Log {
    const cache: Cache
    const area: Area
    const block: array<Word>
    var n: nat
    var outstanding: int
    var committing: bool

    ghost predicate Valid()
      reads this, block, cache, cache.buf, cache.prev, cache.next, cache.disk
    {
      && cache.Valid() && AreaKept()
      && block.Length == LOGSIZE && n <= LOGSIZE
      && Listed(area, |cache.view|, block[..n])
    }

    /** No block of the log area was changed without being written. */
    ghost predicate AreaKept()
      reads cache
    {
      1 <= area.size && area.start + area.size <= |cache.view| && forall b :: b in cache.loose ==> !area.Inside(b)
    }

    /** Every slot that a commit of the list fills is there and is not listed itself. */
    ghost predicate SlotsFree()
      requires n <= block.Length
      reads this, block, cache
    {
      && (n < NBUF ==> area.start + n < |cache.view| && SlotsApart(area, block[..n]))
      && (n >= NBUF ==> 2 <= area.size)
    }

    /** Between two calls of the file system: no buffer is locked, exactly the logged ones are dirty, and the
        log on disk is empty. */
    ghost predicate Quiet()
      reads this, block, cache, cache.buf, cache.prev, cache.next, cache.disk
    {
      && Valid() && cache.held == {} && cache.pinned == Elements(block[..n])
      && HeaderCount(cache.disk.blocks[area.start]) == 0
    }

    /** initlog up to the call of recover_from_log, with the log's place from the superblock. */
    constructor (cache: Cache, area: Area)
      requires cache.Valid() && area.start + area.size <= |cache.view| && 1 <= area.size && cache.loose == {}
      ensures Valid() && this.cache == cache && this.area == area && fresh(block)
      ensures n == 0 && outstanding == 0 && !committing
    {
      this.cache, this.area := cache, area;
      block := new Word[LOGSIZE](_ => 0);
      n, outstanding, committing := 0, 0, false;
    }

    /** memmove(to->data, from->data); bwrite(to). */
    method CopyOut(to: nat, from: nat)
      requires cache.Valid() && to < NBUF && from < NBUF && to != from
      requires cache.buf[to].locked && cache.buf[to].valid && cache.buf[from].locked && cache.buf[from].valid
      modifies cache`view, cache`pinned, cache`loose, cache.buf, cache.disk
      ensures cache.Valid()
      ensures cache.buf[to] == old(cache.buf[to]).(data := old(cache.buf[from]).data, dirty := false)
      ensures cache.buf[from] == old(cache.buf[from])
      ensures cache.pinned == old(cache.pinned) - {cache.buf[to].block as nat}
      ensures cache.loose == old(cache.loose) - {cache.buf[to].block as nat}
      ensures cache.view == old(cache.view)[cache.buf[to].block := cache.buf[from].data]
      ensures cache.disk.blocks == old(cache.disk.blocks)[cache.buf[to].block := cache.buf[from].data]
      ensures cache.disk.trace == old(cache.disk.trace) + [cache.disk.blocks]
    {
      cache.SetData(to, cache.buf[from].data);
      cache.Bwrite(to);
    }

    method ReleaseBoth(x: nat, y: nat)
      requires cache.Valid() && x < NBUF && y < NBUF && x != y
      requires cache.buf[x].locked && cache.buf[y].locked
      requires cache.held == {cache.buf[x].block as nat, cache.buf[y].block as nat}
      requires cache.buf[x].dirty || cache.view[cache.buf[x].block] == cache.disk.blocks[cache.buf[x].block]
      requires cache.buf[y].dirty || cache.view[cache.buf[y].block] == cache.disk.blocks[cache.buf[y].block]
      requires cache.buf[x].valid && cache.buf[y].valid
      modifies cache`order, cache`held, cache`loose, cache.buf, cache.prev, cache.next
      ensures cache.Valid() && cache.held == {} && cache.loose == old(cache.loose)
    {
      cache.Brelse(x);
      cache.Brelse(y);
    }

    /** Two buffers, locked one after the other. */
    method ReadBoth(x: nat, y: nat) returns (ok: bool, i: nat, j: nat)
      requires cache.Valid() && x < |cache.view| && y < |cache.view| && x != y && cache.held == {}
      modifies cache`home, cache`held, cache`view, cache`loose, cache.buf
      ensures cache.Valid() && SameButDropped(old(cache.view), cache.view, old(cache.loose), cache.loose)
      ensures ok ==> i < NBUF && j < NBUF && i != j && cache.held == {x, y}
      ensures |cache.view| == |cache.disk.blocks|
      ensures ok ==> cache.buf[i].dirty == (x in cache.pinned) && cache.buf[j].dirty == (y in cache.pinned)
      ensures ok ==>
          cache.buf[i].block == x && cache.buf[i].locked && cache.buf[i].valid && cache.buf[i].data == cache.view[x]
      ensures ok ==>
          cache.buf[j].block == y && cache.buf[j].locked && cache.buf[j].valid && cache.buf[j].data == cache.view[y]
      ensures y in cache.pinned && x !in cache.pinned ==> (ok <==> |cache.pinned| < NBUF)
      ensures |cache.pinned| + 1 < NBUF ==> ok
    {
      hide Cache.Valid, SameButDropped;
      cache.CountBusy();
      NoneHeld(cache.pinned, x);
      i, j := 0, 0;
      ghost var v0, l0 := cache.view, cache.loose;
      var r := cache.Bread(x);
      if r.Got? {
        i := r.index;
        ghost var v1, l1 := cache.view, cache.loose;
        r := cache.Bread(y);
        SameTwice(v0, v1, cache.view, l0, l1, cache.loose);
        SameAt(v1, cache.view, l1, cache.loose, {x});
        if r.Got? {
          j := r.index;
        }
      }
      ok := r.Got?;
    }

    /** Between operations the log is in the state from which a commit is crash atomic, unless the cache is full. */
    lemma QuietIsReady()
      requires Quiet() && Roomy(area) && n < NBUF
      ensures |cache.view| == |cache.disk.blocks| && GoodEntries(area, |cache.view|, block[..n]) && SlotsFree()
      ensures ReadyToCommit(area, cache.disk.blocks, Written(cache.disk.blocks, cache.view, block[..n]), block[..n])
    {
      hide Cache.Valid, Written, ReadyToCommit;
      cache.CleanAgrees();
      RoomyFits(area, |cache.view|, block[..n]);
      assert HeaderBlocks(cache.disk.blocks[area.start]) == [];
      WrittenReady(area, cache.disk.blocks, cache.view, block[..n]);
    }

    /** Disk image e recovers to the home blocks of d, or to those of v. */
    ghost predicate Atomic(e: Image, d: Image, v: Image)
    {
      GoodHeader(area, e) && (SameHome(area, Recovered(area, e), d) || SameHome(area, Recovered(area, e), v))
    }

    /** Every image the disk went through in a commit recovers to the home blocks before or after the group. */
    lemma CommittedAtomically(trace: seq<Image>, d: Image, v: Image, hdr: seq<Word>, i: nat)
      requires Committed(trace, d, v, hdr) && ReadyToCommit(area, d, v, hdr) && |trace| <= i < |cache.disk.trace|
      ensures Atomic(cache.disk.trace[i], d, v)
    {
      CommitCrashAtomic(area, d, v, hdr, i - |trace| + 1);
    }

    /** write_log's loop body: copy a logged buffer into its slot. */
    method WriteSlot(t: nat) returns (ok: bool)
      requires Valid() && t < n && cache.held == {} && block[t] as nat in cache.pinned
      requires area.start + t + 1 < |cache.view| && area.start + t + 1 !in cache.pinned
      modifies cache, cache.buf, cache.prev, cache.next, cache.disk
      ensures cache.Valid() && (ok <==> |old(cache.pinned)| < NBUF) && AreaKept()
      ensures cache.pinned == old(cache.pinned) && |cache.view| == |old(cache.view)|
      ensures ok ==> cache.held == {}
      ensures ok ==> cache.disk.blocks == old(cache.disk.blocks)[area.start + t + 1 := old(cache.view)[block[t]]]
      ensures forall b :: b in cache.pinned && b < |cache.view| ==> cache.view[b] == old(cache.view)[b]
      ensures cache.disk.trace == old(cache.disk.trace) + if ok then [cache.disk.blocks] else []
      ensures !ok ==> cache.disk.blocks == old(cache.disk.blocks)
    {
      hide Cache.Valid, SameButDropped;
      var slot := area.start + t + 1;
      cache.CleanAgrees();
      assert block[..n][t] == block[t];
      ghost var pinned, v0, l0 := cache.pinned, cache.view, cache.loose;
      var to, from;
      ok, to, from := ReadBoth(slot, block[t]);
      SameAt(v0, cache.view, l0, cache.loose, pinned);
      if ok {
        CopyOut(to, from);
        ReleaseBoth(from, to);
        assert pinned - {slot} == pinned;
      }
    }

    /** write_log: copy every logged buffer into its slot. The first bread already panics when the group has
        filled all NBUF buffers; otherwise none does. */
    method WriteLog() returns (ok: bool)
      requires Quiet() && n > 0 && SlotsFree()
      modifies cache, cache.buf, cache.prev, cache.next, cache.disk
      ensures ok <==> n < NBUF
      ensures !ok ==> cache.disk.blocks == old(cache.disk.blocks) && cache.disk.trace == old(cache.disk.trace)
      ensures ok ==>
          Valid() && cache.held == {} && cache.pinned == old(cache.pinned) && |cache.view| == |old(cache.view)|
      ensures |old(cache.view)| == |old(cache.disk.blocks)|
      ensures ok ==> cache.disk.blocks == CommitImage(area, old(cache.disk.blocks), old(cache.view), block[..n], n)
      ensures ok ==>
          cache.disk.trace
            == old(cache.disk.trace) + CommitImages(area, old(cache.disk.blocks), old(cache.view), block[..n], n)
    {
      hide Cache.Valid, CommitImages, CommitImage, SlotsApart, Distinct, HeaderCount;
      ghost var d, v, hdr := cache.disk.blocks, cache.view, block[..n];
      cache.CleanAgrees();
      ElementsSize(hdr);
      var t := 0;
      if n < NBUF {
        SlotNext(area, d, v, hdr, 0);
      }
      while t < n
        invariant t <= n && cache.Valid() && AreaKept() && cache.held == {} && cache.pinned == Elements(hdr)
        invariant block[..n] == hdr && |cache.view| == |v| && (t > 0 ==> n < NBUF)
        invariant if n < NBUF then cache.disk.blocks == CommitImage(area, d, v, hdr, t) else cache.disk.blocks == d
        invariant cache.disk.trace == old(cache.disk.trace) + if n < NBUF then CommitImages(area, d, v, hdr, t) else []
        invariant forall b :: b in cache.pinned && b < |v| ==> cache.view[b] == v[b]
      {
        assert hdr[t] == block[t];
        if n < NBUF {
          SlotApart(hdr, t);
          SlotNext(area, d, v, hdr, t);
        } else {
          assert area.Inside(area.start + 1);
        }
        ok := WriteSlot(t);
        if !ok {
          return false;
        }
        t := t + 1;
      }
      return true;
    }

    lemma SlotApart(hdr: seq<Word>, t: nat)
      requires SlotsApart(area, hdr) && t < |hdr|
      ensures area.start + t + 1 !in Elements(hdr)
    {
    }

    /** The stores of write_head into the header sector: n and the first n entries. */
    method FillHeader(s: Sector) returns (data: Sector)
      requires block.Length == LOGSIZE && n <= LOGSIZE
      ensures data == EncodeHeader(s, block[..n])
    {
      data := PutWord(s, 0, n);
      ghost var first := data;
      var i := 0;
      while i < n
        invariant i <= n && data == PutEntries(first, block[..n][..i])
      {
        data := PutWord(data, i + 1, block[i]);
        assert block[..n][..i+1][..i] == block[..n][..i];
        i := i + 1;
      }
      assert block[..n][..n] == block[..n];
    }

    /** New contents for a locked buffer, written out, and the buffer released. */
    method Replace(i: nat, s: Sector)
      requires cache.Valid() && i < NBUF && cache.buf[i].locked && cache.buf[i].valid
             && cache.held == {cache.buf[i].block as nat}
      modifies cache`view, cache`pinned, cache`order, cache`held, cache`loose, cache.buf, cache.prev, cache.next,
               cache.disk
      ensures cache.Valid() && cache.held == {} && |cache.view| == |old(cache.view)| && cache.loose <= old(cache.loose)
      ensures cache.pinned == old(cache.pinned) - {old(cache.buf[i].block) as nat}
      ensures cache.disk.blocks == old(cache.disk.blocks)[old(cache.buf[i].block) := s]
      ensures cache.disk.trace == old(cache.disk.trace) + [cache.disk.blocks]
    {
      cache.SetData(i, s);
      cache.Bwrite(i);
      cache.Brelse(i);
    }

    /** write_head: store the in-memory header, keeping the words behind it. */
    method WriteHead() returns (ok: bool)
      requires Valid() && cache.held == {} && cache.pinned <= Elements(block[..n])
      modifies cache, cache.buf, cache.prev, cache.next, cache.disk
      ensures ok <==> |old(cache.pinned)| < NBUF
      ensures ok ==> Valid() && cache.held == {} && cache.pinned == old(cache.pinned)
      ensures |cache.disk.blocks| == |old(cache.disk.blocks)| && area.start < |cache.disk.blocks|
      ensures ok ==> cache.disk.blocks == old(cache.disk.blocks)
                       [area.start := EncodeHeader(old(cache.disk.blocks)[area.start], block[..n])]
      ensures ok ==> cache.disk.trace == old(cache.disk.trace) + [cache.disk.blocks]
    {
      hide Cache.Valid, SameButDropped;
      cache.CleanAgrees();
      cache.CountBusy();
      NoneHeld(cache.pinned, area.start);
      assert area.Inside(area.start);
      ghost var pinned, v0, l0 := cache.pinned, cache.view, cache.loose;
      var r := cache.Bread(area.start);
      SameAt(v0, cache.view, l0, cache.loose, {area.start});
      if !r.Got? {
        return false;
      }
      var data := FillHeader(cache.buf[r.index].data);
      assert pinned - {area.start} == pinned;
      Replace(r.index, data);
      return true;
    }

    /** install_trans's loop body: copy a slot to its home block. */
    method InstallSlot(t: nat)
      requires Valid() && t < n && cache.held == {} && |cache.pinned| < NBUF && n + 1 <= area.size
      requires block[t] as nat in cache.pinned || cache.pinned == {}
      requires area.start + t + 1 !in cache.pinned
      modifies cache, cache.buf, cache.prev, cache.next, cache.disk
      ensures cache.Valid() && AreaKept() && cache.held == {} && |cache.view| == |old(cache.view)|
      ensures cache.pinned == old(cache.pinned) - {block[t] as nat}
      ensures cache.disk.blocks == old(cache.disk.blocks)[block[t] := old(cache.disk.blocks)[area.start + t + 1]]
      ensures cache.disk.trace == old(cache.disk.trace) + [cache.disk.blocks]
    {
      hide Cache.Valid, SameButDropped;
      cache.CleanAgrees();
      var slot := area.start + t + 1;
      assert area.Inside(slot) && !area.Inside(block[..n][t]);
      ghost var v0, l0 := cache.view, cache.loose;
      var ok, from, to := ReadBoth(slot, block[t]);
      SameAt(v0, cache.view, l0, cache.loose, {slot});
      CopyOut(to, from);
      ReleaseBoth(from, to);
    }

    /** install_trans. In a commit the home blocks are pinned and this unpins them; after a crash nothing is. */
    method InstallTrans()
      requires Valid() && cache.held == {}
      requires (cache.pinned == Elements(block[..n]) && n < NBUF) || cache.pinned == {}
      requires GoodEntries(area, |cache.view|, block[..n])
      modifies cache, cache.buf, cache.prev, cache.next, cache.disk
      ensures Valid() && cache.held == {} && cache.pinned == {}
            && |old(cache.view)| == |old(cache.disk.blocks)| == |cache.view|
      ensures cache.disk.blocks == Install(area, old(cache.disk.blocks), block[..n], n)
      ensures cache.disk.trace == old(cache.disk.trace) + InstallImages(area, old(cache.disk.blocks), block[..n], n)
    {
      hide Cache.Valid, Install, InstallImages, GoodHeader, Elements, Distinct;
      ghost var d, hdr := cache.disk.blocks, block[..n];
      cache.CleanAgrees();
      InstallStart(area, d, hdr);
      assert hdr[0..] == hdr;
      var t := 0;
      while t < n
        invariant t <= n && cache.Valid() && AreaKept() && cache.held == {} && |cache.view| == |d|
        invariant block[..n] == hdr
        invariant (cache.pinned == Elements(hdr[t..]) && n < NBUF) || cache.pinned == {}
        invariant cache.disk.blocks == Install(area, d, hdr, t)
        invariant cache.disk.trace == old(cache.disk.trace) + InstallImages(area, d, hdr, t)
      {
        assert hdr[t] == block[t];
        PinnedNext(area, |d|, hdr, t);
        InstallNext(area, d, hdr, t);
        InstallSlot(t);
        t := t + 1;
      }
      assert hdr[n..] == [];
      NoElements();
    }

    /** commit, with the log's lock not held. It panics exactly when the group fills all NBUF buffers, and then has
        written nothing. Otherwise it writes the images of CommitImages, and whichever of them a crash leaves recovers
        to the home blocks before or after the group. */
    method Commit() returns (ok: bool)
      requires Quiet() && Roomy(area)
      modifies this`n, cache, cache.buf, cache.prev, cache.next, cache.disk
      ensures ok <==> old(n) < NBUF
      ensures ok ==> n == 0 && Quiet()
      ensures !ok || old(n) == 0 ==>
          cache.disk.blocks == old(cache.disk.blocks) && cache.disk.trace == old(cache.disk.trace)
      ensures |old(cache.view)| == |old(cache.disk.blocks)|
      ensures ok && old(n) > 0 ==>
        var d := old(cache.disk.blocks);
        var v := Written(d, old(cache.view), old(block[..n]));
        && Committed(old(cache.disk.trace), d, v, old(block[..n])) && ReadyToCommit(area, d, v, old(block[..n]))
      ensures ok ==>
        forall i :: |old(cache.disk.trace)| <= i < |cache.disk.trace| ==>
          Atomic(cache.disk.trace[i], old(cache.disk.blocks),
                 Written(old(cache.disk.blocks), old(cache.view), old(block[..n])))
    {
      hide Cache.Valid, CommitImages, CommitImage, Atomic, Written, ReadyToCommit;
      ghost var d, v, hdr, trace := cache.disk.blocks, cache.view, block[..n], cache.disk.trace;
      cache.CleanAgrees();
      if n == 0 {
        return true;
      }
      if n < NBUF {
        QuietIsReady();
      }
      ok := WriteLog();
      if ok {
        WriteGroup(d, v);
        SameCommit(area, trace, d, v, hdr);
        forall i | |trace| <= i < |cache.disk.trace|
          ensures Atomic(cache.disk.trace[i], d, Written(d, v, hdr))
        {
          CommittedAtomically(trace, d, Written(d, v, hdr), hdr, i);
        }
      }
    }

    /** The disk has gone through all images of a commit, in order. */
    ghost predicate Committed(trace: seq<Image>, d: Image, v: Image, hdr: seq<Word>)
      reads this, cache, cache.disk
    {
      && |d| == |v| && GoodEntries(area, |d|, hdr)
      && cache.disk.trace == trace + CommitImages(area, d, v, hdr, 2 * |hdr| + 2)
      && cache.disk.blocks == CommitImage(area, d, v, hdr, 2 * |hdr| + 2)
    }

    /** commit after write_log: the header, the home blocks, the cleared header. */
    method WriteGroup(ghost d: Image, ghost v: Image)
      requires Valid() && cache.held == {} && cache.pinned == Elements(block[..n]) && 0 < n < NBUF
      requires |d| == |v| == |cache.view| && GoodEntries(area, |d|, block[..n])
      requires cache.disk.blocks == CommitImage(area, d, v, block[..n], n)
      modifies this`n, cache, cache.buf, cache.prev, cache.next, cache.disk
      ensures n == 0 && Quiet()
      ensures cache.disk.trace == old(cache.disk.trace) + GroupImages(area, d, v, old(block[..n]))
      ensures cache.disk.blocks == CommitImage(area, d, v, old(block[..n]), 2 * old(n) + 2)
    {
      hide Cache.Valid, Install, InstallImages;
      ghost var hdr, c := block[..n], CommitImage(area, d, v, block[..n], n + 1);
      WriteAndInstall(c);
      CommitInstalls(area, d, v, hdr, 2 * n + 1);
      ClearHead();
    }

    /** write_head and install_trans. */
    method WriteAndInstall(ghost c: Image)
      requires Valid() && cache.held == {} && cache.pinned == Elements(block[..n]) && 0 < n < NBUF
      requires GoodEntries(area, |cache.view|, block[..n]) && |cache.view| == |cache.disk.blocks|
      requires c == cache.disk.blocks[area.start := EncodeHeader(cache.disk.blocks[area.start], block[..n])]
      modifies cache, cache.buf, cache.prev, cache.next, cache.disk
      ensures Valid() && cache.held == {} && cache.pinned == {}
      ensures cache.disk.blocks == Install(area, c, block[..n], n)
      ensures cache.disk.trace == old(cache.disk.trace) + [c] + InstallImages(area, c, block[..n], n)
    {
      hide Cache.Valid, InstallImages, Install;
      ElementsSize(block[..n]);
      cache.CleanAgrees();
      var ok := WriteHead();
      cache.CleanAgrees();
      InstallTrans();
    }

    /** log.lh.n = 0; write_head(). */
    method ClearHead()
      requires Valid() && cache.held == {} && cache.pinned == {}
      modifies this`n, cache, cache.buf, cache.prev, cache.next, cache.disk
      ensures n == 0 && Quiet()
      ensures cache.disk.blocks
           == old(cache.disk.blocks)[area.start := EncodeHeader(old(cache.disk.blocks)[area.start], [])]
      ensures cache.disk.trace == old(cache.disk.trace) + [cache.disk.blocks]
    {
      hide Cache.Valid;
      n := 0;
      assert block[..0] == [];
      cache.CleanAgrees();
      HeaderRoundTrip(cache.disk.blocks[area.start], []);
      var ok := WriteHead();
    }

    /** read_head's loop. */
    method LoadHeader(data: Sector)
      requires block.Length == LOGSIZE && HeaderCount(data) <= LOGSIZE
      modifies this`n, block
      ensures n <= LOGSIZE && block[..n] == HeaderBlocks(data)
    {
      ghost var hdr := HeaderBlocks(data);
      n := GetWord(data, 0);
      var i := 0;
      while i < n
        invariant i <= n == |hdr| && n <= LOGSIZE && block[..i] == hdr[..i]
        modifies block
      {
        block[i] := GetWord(data, i + 1);
        assert block[..i+1] == block[..i] + [block[i]] && hdr[..i+1] == hdr[..i] + [hdr[i]];
        i := i + 1;
      }
      assert hdr[..n] == hdr;
    }

    /** read_head: the in-memory header from the one on disk. */
    method ReadHead()
      requires cache.Valid() && cache.held == {} && cache.pinned == {} && block.Length == LOGSIZE
      requires GoodHeader(area, cache.disk.blocks) && AreaKept()
      modifies this`n, block, cache, cache.buf, cache.prev, cache.next
      ensures Valid() && cache.held == {} && cache.pinned == {} && GoodEntries(area, |cache.view|, block[..n])
      ensures block[..n] == HeaderBlocks(cache.disk.blocks[area.start])
    {
      hide Cache.Valid, SameButDropped, HeaderBlocks;
      cache.CleanAgrees();
      cache.CountBusy();
      assert area.Inside(area.start);
      assert cache.pinned + cache.held == {};
      ghost var v0, l0 := cache.view, cache.loose;
      var r := cache.Bread(area.start);
      SameAt(v0, cache.view, l0, cache.loose, {area.start});
      LoadHeader(cache.buf[r.index].data);
      hide Listed;
      cache.Brelse(r.index);
    }

    /** recover_from_log. */
    method RecoverFromLog()
      requires cache.Valid() && cache.held == {} && cache.pinned == {} && block.Length == LOGSIZE
      requires GoodHeader(area, cache.disk.blocks) && AreaKept()
      modifies this`n, block, cache, cache.buf, cache.prev, cache.next, cache.disk
      ensures n == 0 && Quiet()
      ensures var d, hdr := old(cache.disk.blocks), HeaderBlocks(old(cache.disk.blocks)[area.start]);
        && cache.disk.trace == old(cache.disk.trace) + RecoveryImages(area, d, hdr, |hdr| + 1)
        && cache.disk.blocks == RecoveryImage(area, d, hdr, |hdr| + 1)
    {
      hide Cache.Valid, RecoveryImages, Install, InstallImages;
      ghost var d := cache.disk.blocks;
      ReadHead();
      ghost var hdr := block[..n];
      InstallTrans();
      ClearHead();
      RecoveryTrace(area, d, hdr);
    }

    /** log_write: list the buffer's block, unless it is listed already, and pin the buffer. While the listed blocks are
        the dirty ones, the header array has room: a buffer for a block that is not listed is one more than those. */
    method LogWrite(i: nat)
      requires Valid() && i < NBUF && cache.buf[i].locked && cache.buf[i].valid
      requires !area.Inside(cache.buf[i].block) && cache.buf[i].block < 0x1_0000_0000
      requires cache.pinned == Elements(block[..n])
      modifies this`n, block, cache`pinned, cache`loose, cache.buf
      ensures Valid() && block[..n] == GroupCommit.Append(old(block[..n]), cache.buf[i].block)
      ensures cache.pinned == old(cache.pinned) + {cache.buf[i].block as nat} == Elements(block[..n])
      ensures cache.buf[i] == old(cache.buf[i]).(dirty := true)
            && cache.loose == old(cache.loose) - {cache.buf[i].block as nat}
      ensures forall j :: 0 <= j < NBUF && j != i ==> cache.buf[j] == old(cache.buf[j])
    {
      hide Cache.Valid;
      ghost var hdr := block[..n];
      cache.CleanAgrees();
      cache.CachedInRange(i);
      var b := cache.buf[i].block;
      var k := 0;
      while k < n && block[k] != b
        invariant k <= n && forall l :: 0 <= l < k ==> block[l] != b
      {
        k := k + 1;
      }
      assert k < n ==> hdr[k] == b;
      assert k == n ==> forall l :: 0 <= l < n ==> hdr[l] != b;
      if k == n {
        RoomToList(i);
      }
      block[k] := b;
      if k == n {
        n := n + 1;
      }
      assert block[..n] == GroupCommit.Append(hdr, b);
      GroupCommit.AppendGood(area, |cache.view|, hdr, b);
      cache.Pin(i);
      ElementsAppend(hdr, b);
    }

    /** A locked buffer whose block is not listed leaves fewer than NBUF listed. */
    lemma RoomToList(i: nat)
      requires Valid() && i < NBUF && cache.buf[i].locked && cache.buf[i].block >= 0
             && cache.pinned == Elements(block[..n])
      requires cache.buf[i].block !in block[..n]
      ensures n < NBUF
    {
      hide Cache.Valid;
      cache.CountBusy();
      ElementsSize(block[..n]);
      cache.CleanAgrees();
      var b: nat := cache.buf[i].block;
      SubsetSize(cache.pinned + {b}, cache.pinned + cache.held);
      assert |cache.pinned + {b}| == n + 1;
    }

    /** One pass of begin_op's loop: the operation is admitted, or has to sleep. */
    method BeginOp() returns (admitted: bool)
      modifies this`outstanding
      ensures admitted <==> !committing && n + (old(outstanding) + 1) * MAXOPBLOCKS <= LOGSIZE
      ensures outstanding == old(outstanding) + if admitted then 1 else 0
    {
      if committing {
        admitted := false;
      } else if n + (outstanding + 1) * MAXOPBLOCKS > LOGSIZE {
        admitted := false;
      } else {
        outstanding := outstanding + 1;
        admitted := true;
      }
    }

    /** end_op: the last operation to end commits the group. The first panic cannot happen (GroupCommit);
        the commit panics exactly when the group has LOGSIZE == NBUF blocks. */
    method EndOp() returns (ok: bool)
      requires Quiet() && Roomy(area)
      modifies this`n, this`outstanding, this`committing, cache, cache.buf, cache.prev, cache.next, cache.disk
      ensures outstanding == old(outstanding) - 1
      ensures ok <==> !old(committing) && (outstanding == 0 ==> old(n) < NBUF)
      ensures ok ==> Quiet() && !committing
      ensures !ok ==> committing
      ensures ok && (outstanding != 0 || old(n) == 0) ==>
        n == old(n) && cache.disk.trace == old(cache.disk.trace) && cache.disk.blocks == old(cache.disk.blocks)
      ensures ok && outstanding == 0 ==> n == 0
      ensures ok && outstanding == 0 && old(n) > 0 ==>
        |old(cache.view)| == |old(cache.disk.blocks)|
        && Committed(old(cache.disk.trace), old(cache.disk.blocks),
                     Written(old(cache.disk.blocks), old(cache.view), old(block[..n])),
                     old(block[..n]))
    {
      hide Cache.Valid;
      outstanding := outstanding - 1;
      if committing {
        return false;
      }
      ok := true;
      if outstanding == 0 {
        committing := true;
        ok := Commit();
        if ok {
          committing := false;
        }
      }
    }
  }
}
