/**
 The on-disk redo log as a function of the disk image: what the header says, what recovery makes of an
 image, and the sequence of images that a commit and a recovery leave behind, one per block written.
 A crash can stop the machine after any of them.
 */
module Redo {
  import opened Bytes
  import opened Params

  /** struct logheader as stored in a sector: word 0 is n, words 1.. are the home block numbers. */
  function HeaderCount(s: Sector): Word
  {
    GetWord(s, 0)
  }

  function HeaderBlocks(s: Sector): (hdr: seq<Word>)
    requires HeaderCount(s) < NWORDS
    ensures |hdr| == HeaderCount(s)
  {
    seq(HeaderCount(s), i requires 0 <= i < NWORDS - 1 => GetWord(s, i + 1))
  }

  /** Sector s with words 1..|ws| replaced by ws. */
  function PutEntries(s: Sector, ws: seq<Word>): Sector
    requires |ws| < NWORDS
  {
    if ws == [] then s else PutWord(PutEntries(s, ws[..|ws|-1]), |ws|, ws[|ws|-1])
  }

  /** What write_head stores: the count and the first n entries; later words keep their old bytes. */
  function EncodeHeader(s: Sector, hdr: seq<Word>): Sector
    requires |hdr| < NWORDS
  {
    PutEntries(PutWord(s, 0, |hdr|), hdr)
  }

  lemma {:induction false} PutEntriesRead(s: Sector, ws: seq<Word>, j: nat)
    requires |ws| < NWORDS && j < NWORDS
    ensures GetWord(PutEntries(s, ws), j) == if 1 <= j <= |ws| then ws[j-1] else GetWord(s, j)
  {
    if ws == [] {
    } else {
      PutEntriesRead(s, ws[..|ws|-1], j);
      GetPut(PutEntries(s, ws[..|ws|-1]), |ws|, ws[|ws|-1], j);
    }
  }

  /** struct logheader word for word: the count, the entries, and after them what was there before. */
  lemma HeaderLayout(s: Sector, hdr: seq<Word>, j: nat)
    requires |hdr| < NWORDS && j < NWORDS
    ensures GetWord(EncodeHeader(s, hdr), j)
         == if j == 0 then |hdr| else if j <= |hdr| then hdr[j - 1] else GetWord(s, j)
  {
    PutEntriesRead(PutWord(s, 0, |hdr|), hdr, j);
    GetPut(s, 0, |hdr|, j);
  }

  /** Reading a header back gives exactly the blocks that were written, whatever the sector held before. */
  lemma HeaderRoundTrip(s: Sector, hdr: seq<Word>)
    requires |hdr| < NWORDS
    ensures HeaderCount(EncodeHeader(s, hdr)) == |hdr|
    ensures HeaderBlocks(EncodeHeader(s, hdr)) == hdr
  {
    var e := EncodeHeader(s, hdr);
    PutEntriesRead(PutWord(s, 0, |hdr|), hdr, 0);
    GetPut(s, 0, |hdr|, 0);
    forall i | 0 <= i < |hdr|
      ensures HeaderBlocks(e)[i] == hdr[i]
    {
      PutEntriesRead(PutWord(s, 0, |hdr|), hdr, i + 1);
    }
  }

  /** Where the log lives: header at start, entry t at start + t + 1; all of it in start .. start + size. */
  datatype Area = Area(start: nat, size: nat)
  {
    predicate Inside(b: nat) { start <= b < start + size }
  }

  predicate Distinct(s: seq<Word>)
  {
    forall i, j :: 0 <= i < j < |s| ==> s[i] != s[j]
  }

  /** Position of block b among the entries, or |hdr| when it has none. */
  function IndexOf(hdr: seq<Word>, b: nat): (i: nat)
    ensures i <= |hdr| && (i < |hdr| ==> hdr[i] == b) && forall j :: 0 <= j < i ==> hdr[j] != b
  {
    if hdr == [] then 0 else if hdr[0] == b then 0 else 1 + IndexOf(hdr[1..], b)
  }

  /** Header entries name distinct home blocks of an image of n blocks. */
  ghost predicate Listed(a: Area, n: nat, hdr: seq<Word>)
  {
    && a.start + a.size <= n
    && |hdr| <= LOGSIZE
    && Distinct(hdr)
    && forall t :: 0 <= t < |hdr| ==> hdr[t] < n && !a.Inside(hdr[t])
  }

  /** And the area has a slot for each. */
  ghost predicate GoodEntries(a: Area, n: nat, hdr: seq<Word>)
  {
    Listed(a, n, hdr) && |hdr| + 1 <= a.size
  }

  /** The area has a slot for each entry of every list that a commit writes out. With NBUF blocks listed all buffers are
      dirty, and write_log panics before its first write. */
  predicate Roomy(a: Area)
  {
    Min(LOGSIZE, NBUF - 1) + 1 <= a.size
  }

  function Min(x: nat, y: nat): nat
  {
    if x < y then x else y
  }

  lemma RoomyFits(a: Area, n: nat, hdr: seq<Word>)
    requires Roomy(a) && Listed(a, n, hdr) && |hdr| < NBUF
    ensures GoodEntries(a, n, hdr)
  {
  }

  ghost predicate GoodHeader(a: Area, d: Image)
  {
    && a.start + a.size <= |d| && 1 <= a.size
    && HeaderCount(d[a.start]) <= LOGSIZE
    && GoodEntries(a, |d|, HeaderBlocks(d[a.start]))
  }

  /** The two images agree on every block outside the log. */
  ghost predicate SameHome(a: Area, d: Image, e: Image)
  {
    |d| == |e| && forall b :: 0 <= b < |d| && !a.Inside(b) ==> d[b] == e[b]
  }

  /** d after the first t entries have been copied from their log slots to their home blocks. */
  function Install(a: Area, d: Image, hdr: seq<Word>, t: nat): (r: Image)
    requires t <= |hdr|
    requires a.start + |hdr| < |d| && forall i :: 0 <= i < |hdr| ==> hdr[i] < |d|
    ensures |r| == |d|
  {
    if t == 0 then d else var p := Install(a, d, hdr, t - 1); p[hdr[t-1] := p[a.start + t]]
  }

  /** The image recovery ends with, log header aside: every committed entry copied home. */
  ghost function Recovered(a: Area, d: Image): (r: Image)
    requires GoodHeader(a, d)
    ensures |r| == |d|
  {
    var hdr := HeaderBlocks(d[a.start]);
    Install(a, d, hdr, |hdr|)
  }

  /** Closed form of a partial install: block b holds its log slot if its entry is among the first t. */
  lemma {:induction false} InstallAt(a: Area, d: Image, hdr: seq<Word>, t: nat, b: nat)
    requires t <= |hdr| && b < |d| && GoodEntries(a, |d|, hdr)
    ensures Install(a, d, hdr, t)[b] == if IndexOf(hdr, b) < t then d[a.start + IndexOf(hdr, b) + 1] else d[b]
  {
    if t == 0 {
    } else {
      InstallAt(a, d, hdr, t - 1, b);
      var slot := a.start + t;
      assert a.Inside(slot);
      InstallAt(a, d, hdr, t - 1, slot);
      assert IndexOf(hdr, slot) == |hdr|;
    }
  }

  /** Image after the first k writes of a commit of hdr, when block b of the cache holds view[b]:
      the log slots, then the header, then the home blocks, then the cleared header. */
  function CommitImage(a: Area, d: Image, view: Image, hdr: seq<Word>, k: nat): (r: Image)
    requires a.start + |hdr| < |d| == |view| && |hdr| < NWORDS && k <= 2 * |hdr| + 2
    requires forall i :: 0 <= i < |hdr| ==> hdr[i] < |d|
    ensures |r| == |d|
  {
    var n := |hdr|;
    if k == 0 then d
    else
      var p := CommitImage(a, d, view, hdr, k - 1);
      if k <= n then p[a.start + k := view[hdr[k-1]]]
      else if k == n + 1 then p[a.start := EncodeHeader(p[a.start], hdr)]
      else if k <= 2 * n + 1 then p[hdr[k-n-2] := p[a.start + k - n - 1]]
      else p[a.start := EncodeHeader(p[a.start], [])]
  }

  /** Image after the first k writes of a recovery: the home blocks, then the cleared header. */
  function RecoveryImage(a: Area, d: Image, hdr: seq<Word>, k: nat): (r: Image)
    requires a.start + |hdr| < |d| && k <= |hdr| + 1
    requires forall i :: 0 <= i < |hdr| ==> hdr[i] < |d|
    ensures |r| == |d|
  {
    if k <= |hdr| then Install(a, d, hdr, k)
    else var p := Install(a, d, hdr, |hdr|); p[a.start := EncodeHeader(p[a.start], [])]
  }

  // ---------- Commit ----------

  /** Before the header write a commit has touched log slots only. */
  lemma {:induction false} CommitSlots(a: Area, d: Image, view: Image, hdr: seq<Word>, k: nat, b: nat)
    requires a.start + |hdr| < |d| == |view| && |hdr| < NWORDS && k <= |hdr| && b < |d|
    requires forall i :: 0 <= i < |hdr| ==> hdr[i] < |d|
    ensures CommitImage(a, d, view, hdr, k)[b]
         == if a.start + 1 <= b <= a.start + k then view[hdr[b - a.start - 1]] else d[b]
  {
    if k == 0 {
    } else {
      CommitSlots(a, d, view, hdr, k - 1, b);
    }
  }

  /** From the header write on, image k is the filled log with the first k - n - 1 entries installed. */
  lemma {:induction false} CommitInstalls(a: Area, d: Image, view: Image, hdr: seq<Word>, k: nat)
    requires |d| == |view| && GoodEntries(a, |d|, hdr) && |hdr| + 1 <= k <= 2 * |hdr| + 1
    ensures CommitImage(a, d, view, hdr, k)
         == Install(a, CommitImage(a, d, view, hdr, |hdr| + 1), hdr, k - |hdr| - 1)
  {
    if k == |hdr| + 1 {
    } else {
      CommitInstalls(a, d, view, hdr, k - 1);
    }
  }

  /** Installing never touches the log area. */
  lemma InstallKeepsLog(a: Area, d: Image, hdr: seq<Word>, t: nat, b: nat)
    requires t <= |hdr| && b < |d| && GoodEntries(a, |d|, hdr) && a.Inside(b)
    ensures Install(a, d, hdr, t)[b] == d[b]
  {
    InstallAt(a, d, hdr, t, b);
    assert IndexOf(hdr, b) == |hdr|;
  }

  /** Installing everything over a partial install gives the same block as installing everything at once. */
  lemma InstallTwice(a: Area, d: Image, hdr: seq<Word>, t: nat, b: nat)
    requires t <= |hdr| && b < |d| && GoodEntries(a, |d|, hdr)
    ensures Install(a, Install(a, d, hdr, t), hdr, |hdr|)[b] == Install(a, d, hdr, |hdr|)[b]
  {
    var e := Install(a, d, hdr, t);
    var i := IndexOf(hdr, b);
    InstallAt(a, d, hdr, |hdr|, b);
    InstallAt(a, e, hdr, |hdr|, b);
    InstallAt(a, d, hdr, t, b);
    if i < |hdr| {
      InstallKeepsLog(a, d, hdr, t, a.start + i + 1);
    }
  }

  /** A partly installed image recovers to what the image itself recovers to: recovery may be cut anywhere. */
  lemma InstallIdempotent(a: Area, d: Image, t: nat)
    requires GoodHeader(a, d) && t <= |HeaderBlocks(d[a.start])|
    ensures var e := Install(a, d, HeaderBlocks(d[a.start]), t);
            GoodHeader(a, e) && SameHome(a, Recovered(a, e), Recovered(a, d))
  {
    var hdr := HeaderBlocks(d[a.start]);
    var e := Install(a, d, hdr, t);
    InstallKeepsLog(a, d, hdr, t, a.start);
    assert e[a.start] == d[a.start];
    assert Recovered(a, e) == Install(a, e, hdr, |hdr|);
    forall b | 0 <= b < |d|
      ensures Recovered(a, e)[b] == Recovered(a, d)[b]
    {
      InstallTwice(a, d, hdr, t, b);
    }
  }

  /** An empty header recovers to the image as it stands. */
  lemma EmptyHeader(a: Area, d: Image, s: Sector)
    requires a.start + a.size <= |d| && 1 <= a.size && d[a.start] == EncodeHeader(s, [])
    ensures GoodHeader(a, d) && HeaderBlocks(d[a.start]) == [] && Recovered(a, d) == d
  {
    HeaderRoundTrip(s, []);
  }

  // ---------- Crash atomicity ----------

  /** What a commit starts from: an empty log, and a cache that differs from the disk at logged blocks only. */
  ghost predicate ReadyToCommit(a: Area, d: Image, view: Image, hdr: seq<Word>)
  {
    && |d| == |view|
    && GoodHeader(a, d) && HeaderCount(d[a.start]) == 0
    && forall b :: 0 <= b < |d| && !a.Inside(b) && IndexOf(hdr, b) == |hdr| ==> view[b] == d[b]
  }

  /** Block b of the filled log, header included, once it is installed. */
  lemma FilledLogInstalls(a: Area, d: Image, view: Image, hdr: seq<Word>, b: nat)
    requires |d| == |view| && GoodEntries(a, |d|, hdr) && b < |d| && !a.Inside(b)
    ensures Install(a, CommitImage(a, d, view, hdr, |hdr| + 1), hdr, |hdr|)[b]
         == if IndexOf(hdr, b) < |hdr| then view[b] else d[b]
  {
    var i := IndexOf(hdr, b);
    var e := CommitImage(a, d, view, hdr, |hdr| + 1);
    InstallAt(a, e, hdr, |hdr|, b);
    CommitSlots(a, d, view, hdr, |hdr|, b);
    if i < |hdr| {
      CommitSlots(a, d, view, hdr, |hdr|, a.start + i + 1);
    }
  }

  /** The header write is the commit point: it turns the filled log into one that recovers to the cache's view. */
  lemma CommitPoint(a: Area, d: Image, view: Image, hdr: seq<Word>)
    requires ReadyToCommit(a, d, view, hdr) && GoodEntries(a, |d|, hdr)
    ensures var e := CommitImage(a, d, view, hdr, |hdr| + 1);
            && HeaderCount(e[a.start]) == |hdr| && HeaderBlocks(e[a.start]) == hdr
            && GoodHeader(a, e) && SameHome(a, Recovered(a, e), view)
  {
    var n := |hdr|;
    var p := CommitImage(a, d, view, hdr, n);
    var e := CommitImage(a, d, view, hdr, n + 1);
    HeaderRoundTrip(p[a.start], hdr);
    assert e[a.start] == EncodeHeader(p[a.start], hdr);
    assert Recovered(a, e) == Install(a, e, hdr, n);
    forall b | 0 <= b < |d| && !a.Inside(b)
      ensures Recovered(a, e)[b] == view[b]
    {
      FilledLogInstalls(a, d, view, hdr, b);
    }
  }

  /** Before the header write a crash recovers to the home blocks the commit started from. */
  lemma CommitBefore(a: Area, d: Image, view: Image, hdr: seq<Word>, k: nat)
    requires ReadyToCommit(a, d, view, hdr) && GoodEntries(a, |d|, hdr) && k <= |hdr|
    ensures var e := CommitImage(a, d, view, hdr, k);
            GoodHeader(a, e) && SameHome(a, Recovered(a, e), d)
  {
    var e := CommitImage(a, d, view, hdr, k);
    forall b | 0 <= b < |d|
      ensures e[b] == if a.start + 1 <= b <= a.start + k then view[hdr[b - a.start - 1]] else d[b]
    {
      CommitSlots(a, d, view, hdr, k, b);
    }
    assert e[a.start] == d[a.start];
    assert HeaderBlocks(e[a.start]) == [];
    assert Recovered(a, e) == e;
  }

  /** From the header write until the header is cleared, a crash recovers to the whole group. */
  lemma CommitAfter(a: Area, d: Image, view: Image, hdr: seq<Word>, k: nat)
    requires ReadyToCommit(a, d, view, hdr) && GoodEntries(a, |d|, hdr) && |hdr| < k <= 2 * |hdr| + 1
    ensures var e := CommitImage(a, d, view, hdr, k);
            GoodHeader(a, e) && SameHome(a, Recovered(a, e), view)
    ensures k == 2 * |hdr| + 1 ==> SameHome(a, CommitImage(a, d, view, hdr, k), view)
  {
    var c := CommitImage(a, d, view, hdr, |hdr| + 1);
    CommitPoint(a, d, view, hdr);
    CommitInstalls(a, d, view, hdr, k);
    InstallIdempotent(a, c, k - |hdr| - 1);
  }

  /** Clearing the header leaves the home blocks as installed and the log empty. */
  lemma CommitEnd(a: Area, d: Image, view: Image, hdr: seq<Word>)
    requires ReadyToCommit(a, d, view, hdr) && GoodEntries(a, |d|, hdr)
    ensures var e := CommitImage(a, d, view, hdr, 2 * |hdr| + 2);
            && GoodHeader(a, e) && HeaderCount(e[a.start]) == 0
            && Recovered(a, e) == e && SameHome(a, e, view)
  {
    var p := CommitImage(a, d, view, hdr, 2 * |hdr| + 1);
    CommitAfter(a, d, view, hdr, 2 * |hdr| + 1);
    EmptyHeader(a, p[a.start := EncodeHeader(p[a.start], [])], p[a.start]);
  }

  /** Crash atomicity of commit: stopped after any number k of its writes, the disk recovers to the home blocks
      from before the group when k <= n, and to those with the whole group applied once the header is down. */
  lemma CommitCrashAtomic(a: Area, d: Image, view: Image, hdr: seq<Word>, k: nat)
    requires ReadyToCommit(a, d, view, hdr) && GoodEntries(a, |d|, hdr) && k <= 2 * |hdr| + 2
    ensures var e := CommitImage(a, d, view, hdr, k);
            GoodHeader(a, e) && if k <= |hdr| then SameHome(a, Recovered(a, e), d)
                else SameHome(a, Recovered(a, e), view)
    ensures var e := CommitImage(a, d, view, hdr, k);
            k == 2 * |hdr| + 2 ==> HeaderCount(e[a.start]) == 0 && SameHome(a, e, view)
  {
    var n := |hdr|;
    if k <= n {
      CommitBefore(a, d, view, hdr, k);
    } else if k <= 2 * n + 1 {
      CommitAfter(a, d, view, hdr, k);
    } else {
      CommitEnd(a, d, view, hdr);
    }
  }

  /** Recovery may crash and be restarted any number of times: each of its images recovers to the same home blocks. */
  lemma RecoveryCrashAtomic(a: Area, d: Image, k: nat)
    requires GoodHeader(a, d) && k <= HeaderCount(d[a.start]) + 1
    ensures var e := RecoveryImage(a, d, HeaderBlocks(d[a.start]), k);
            GoodHeader(a, e) && SameHome(a, Recovered(a, e), Recovered(a, d))
    ensures var e := RecoveryImage(a, d, HeaderBlocks(d[a.start]), k);
            k == HeaderCount(d[a.start]) + 1 ==> HeaderCount(e[a.start]) == 0 && SameHome(a, e, Recovered(a, d))
  {
    var hdr := HeaderBlocks(d[a.start]);
    if k <= |hdr| {
      InstallIdempotent(a, d, k);
    } else {
      var p := Install(a, d, hdr, |hdr|);
      EmptyHeader(a, RecoveryImage(a, d, hdr, k), p[a.start]);
      assert a.Inside(a.start);
    }
  }

  // ---------- What a commit writes ----------

  /** What a commit of these blocks writes to the disk: for a block that is not listed, nothing new. */
  function Written(d: Image, view: Image, hdr: seq<Word>): (v: Image)
    requires |view| == |d|
    ensures |v| == |d|
  {
    seq(|d|, b requires 0 <= b < |d| => if b in hdr then view[b] else d[b])
  }

  /** Only what the cache has for the listed blocks matters, so buffers that were changed and not logged do not show. */
  lemma {:induction false} OnlyListed(a: Area, d: Image, view: Image, hdr: seq<Word>, k: nat)
    requires |view| == |d| && a.start + |hdr| < |d| && |hdr| < NWORDS && k <= 2 * |hdr| + 2
    requires forall i :: 0 <= i < |hdr| ==> hdr[i] < |d|
    ensures CommitImage(a, d, view, hdr, k) == CommitImage(a, d, Written(d, view, hdr), hdr, k)
  {
    if k > 0 {
      OnlyListed(a, d, view, hdr, k - 1);
      if k <= |hdr| {
        assert hdr[k - 1] in hdr;
      }
    }
  }

  lemma WrittenReady(a: Area, d: Image, view: Image, hdr: seq<Word>)
    requires GoodHeader(a, d) && HeaderCount(d[a.start]) == 0 && |d| == |view|
    ensures ReadyToCommit(a, d, Written(d, view, hdr), hdr)
  {
    forall b | 0 <= b < |d| && IndexOf(hdr, b) == |hdr|
      ensures Written(d, view, hdr)[b] == d[b]
    {
      assert b !in hdr;
    }
  }

  // ---------- How large the log area has to be ----------

  /** No crash during any commit of these blocks can leave a mix of old and new home blocks. */
  ghost predicate NeverMixes(a: Area, n: nat, hdr: seq<Word>)
    requires a.start + |hdr| < n && |hdr| < NWORDS && forall i :: 0 <= i < |hdr| ==> hdr[i] < n
  {
    forall d: Image, view: Image, k: nat :: |d| == n && ReadyToCommit(a, d, view, hdr) && k <= 2 * |hdr| + 2 ==>
      var e := CommitImage(a, d, view, hdr, k);
      GoodHeader(a, e) && (SameHome(a, Recovered(a, e), d) || SameHome(a, Recovered(a, e), view))
  }

  /** With no slot for the last entry, write_log runs into the blocks behind the log before anything is committed. */
  lemma ShortLogMixes(a: Area, n: nat, hdr: seq<Word>)
    requires 1 <= a.size && a.start + a.size <= n && a.start + |hdr| < n && 2 <= |hdr| <= LOGSIZE && Distinct(hdr)
    requires forall i :: 0 <= i < |hdr| ==> hdr[i] < n && !a.Inside(hdr[i])
    requires |hdr| + 1 > a.size
    ensures !NeverMixes(a, n, hdr)
  {
    var ones: Sector := seq(BSIZE, _ => 1);
    var zeros: Sector := ZeroSector();
    var d: Image := seq(n, _ => zeros);
    var view: Image := seq(n, b => if b in hdr then ones else zeros);
    ZeroWord(0);
    assert ReadyToCommit(a, d, view, hdr) by {
      assert HeaderCount(d[a.start]) == 0;
    }
    var over := a.start + a.size;
    var k := a.size;
    var e := CommitImage(a, d, view, hdr, k);
    CommitSlots(a, d, view, hdr, k, over);
    CommitSlots(a, d, view, hdr, k, a.start);
    assert hdr[a.size - 1] in hdr;
    assert ones[0] != zeros[0];
    assert e[over] == ones && d[over] == zeros;
    var other := if hdr[0] == over then hdr[1] else hdr[0];
    assert other in hdr && other != over && !a.Inside(other);
    CommitSlots(a, d, view, hdr, k, other);
    assert e[other] == zeros && view[other] == ones;
    if GoodHeader(a, e) {
      assert HeaderBlocks(e[a.start]) == [];
      assert Recovered(a, e) == e;
    }
  }

  /** The exact requirement on the log area: a slot for the header and one for every block of the group. */
  lemma LogAreaExact(a: Area, n: nat, hdr: seq<Word>)
    requires 1 <= a.size && a.start + a.size <= n && a.start + |hdr| < n && 2 <= |hdr| <= LOGSIZE && Distinct(hdr)
    requires forall i :: 0 <= i < |hdr| ==> hdr[i] < n && !a.Inside(hdr[i])
    ensures NeverMixes(a, n, hdr) <==> |hdr| + 1 <= a.size
  {
    if |hdr| + 1 <= a.size {
      FitsNeverMixes(a, n, hdr);
    } else {
      ShortLogMixes(a, n, hdr);
    }
  }

  lemma FitsNeverMixes(a: Area, n: nat, hdr: seq<Word>)
    requires GoodEntries(a, n, hdr)
    ensures NeverMixes(a, n, hdr)
  {
    forall d: Image, view: Image, k: nat | |d| == n && ReadyToCommit(a, d, view, hdr) && k <= 2 * |hdr| + 2
      ensures var e := CommitImage(a, d, view, hdr, k);
              GoodHeader(a, e) && (SameHome(a, Recovered(a, e), d) || SameHome(a, Recovered(a, e), view))
    {
      CommitCrashAtomic(a, d, view, hdr, k);
    }
  }

  /** No crash during any commit can leave a mix of old and new home blocks, whatever fewer than NBUF blocks are listed;
      lists of NBUF blocks are never written out. The blocks behind the slots are not among those listed. */
  ghost predicate CommitsNeverMix(a: Area, n: nat)
    requires a.start + NBUF <= n
  {
    forall hdr: seq<Word> | Listed(a, n, hdr) && |hdr| < NBUF && SlotsApart(a, hdr) :: NeverMixes(a, n, hdr)
  }

  /** Every slot that write_log fills is another block than those listed. */
  ghost predicate SlotsApart(a: Area, hdr: seq<Word>)
  {
    forall i :: 0 <= i < |hdr| ==> !(a.start < hdr[i] <= a.start + |hdr|)
  }

  /** The exact requirement on the log area over all commits. */
  lemma LogAreaBound(a: Area, n: nat)
    requires 1 <= a.size && a.start + a.size + 2 * NBUF <= n < 0x1_0000_0000
    ensures CommitsNeverMix(a, n) <==> Roomy(a)
  {
    hide NeverMixes;
    if Roomy(a) {
      forall hdr: seq<Word> | Listed(a, n, hdr) && |hdr| < NBUF && SlotsApart(a, hdr)
        ensures NeverMixes(a, n, hdr)
      {
        if |hdr| >= 2 {
          LogAreaExact(a, n, hdr);
        } else {
          RoomyFits(a, n, hdr);
          FitsNeverMixes(a, n, hdr);
        }
      }
    } else {
      var hdr: seq<Word> := seq(NBUF - 1, i requires 0 <= i < NBUF - 1 => a.start + a.size + NBUF + i);
      assert Listed(a, n, hdr) && SlotsApart(a, hdr);
      LogAreaExact(a, n, hdr);
    }
  }

  /** The log area that mkfs lays out, LOGSIZE blocks with the header among them, is just large enough: one block less
      and there would be commits that mix. */
  lemma MkfsLogFits()
    ensures CommitsNeverMix(Area(2, LOGSIZE), 1000) && !CommitsNeverMix(Area(2, LOGSIZE - 1), 1000)
  {
    LogAreaBound(Area(2, LOGSIZE), 1000);
    LogAreaBound(Area(2, LOGSIZE - 1), 1000);
  }
}
