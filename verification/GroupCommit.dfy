/**
 begin_op, log_write, end_op, commit, crashes and recovery as steps of one machine, interleaved in any order
 by any number of operations. The critical sections under log.lock are single steps; every block that a commit
 or a recovery writes is a step of its own.
 */
module GroupCommit {
  import opened Bytes
  import opened Params
  import opened Redo
  import opened Sets

  type OpId = nat

  datatype Event = Began(op: OpId) | Wrote(op: OpId, block: Word, data: Sector) | Ended(op: OpId)

  type History = seq<Event>

  /** The operations in progress after event e, when running were in progress before it. */
  ghost function After(running: set<OpId>, e: Event): set<OpId>
  {
    match e
    case Began(op) => running + {op}
    case Ended(op) => running - {op}
    case Wrote(_, _, _) => running
  }

  /** Only an operation in progress writes or ends, and only a new one begins. */
  ghost predicate Allowed(running: set<OpId>, e: Event)
  {
    match e
    case Began(op) => op !in running
    case Ended(op) => op in running
    case Wrote(op, _, _) => op in running
  }

  ghost function Apply(d: Image, e: Event): (r: Image)
    ensures |r| == |d|
  {
    if e.Wrote? && e.block < |d| then d[e.block := e.data] else d
  }

  /** Operations begun and not ended by the end of h. */
  ghost function Running(h: History): set<OpId>
  {
    if h == [] then {} else After(Running(h[..|h|-1]), h[|h|-1])
  }

  ghost predicate Proper(h: History)
  {
    h != [] ==> Proper(h[..|h|-1]) && Allowed(Running(h[..|h|-1]), h[|h|-1])
  }

  /** h consists of complete operations: none is cut off at its end. */
  ghost predicate WholeOperations(h: History)
  {
    Proper(h) && Running(h) == {}
  }

  /** The home blocks after the writes of h, in order. */
  ghost function Effect(d: Image, h: History): (r: Image)
    ensures |r| == |d|
  {
    if h == [] then d else Apply(Effect(d, h[..|h|-1]), h[|h|-1])
  }

  datatype Pc =
    | Open                   // no commit in progress
    | Committing(k: nat)     // commit() has written k blocks
    | Down                   // crashed: only the disk is left
    | Recovering(k: nat)     // recover_from_log() has written k blocks

  /** The log's fields, the dirty buffers and the disk. The last four fields record the past:
      base is the disk when the present commit or recovery began, durable the operations on the disk for good,
      current those since the last commit point. */
  datatype Machine = Machine(
    disk: Image, hdr: seq<Word>, outstanding: int, committing: bool, cache: map<Word, Sector>, pc: Pc,
    ops: map<OpId, nat>,     // operations in progress, with the number of log entries each has added
    panicked: bool,
    base: Image, durable: History, current: History)

  ghost predicate Up(s: Machine)
  {
    s.pc.Open? || s.pc.Committing?
  }

  /** What bread returns for each block: the dirty buffer if there is one, else the disk. */
  function View(d: Image, cache: map<Word, Sector>): (v: Image)
    ensures |v| == |d|
  {
    seq(|d|, b requires 0 <= b < |d| => if b in cache then cache[b] else d[b])
  }

  /** log_write's update of the header: a block that is already listed is absorbed. */
  function Append(hdr: seq<Word>, b: Word): seq<Word>
  {
    if b in hdr then hdr else hdr + [b]
  }

  // ---------- Steps ----------

  /** The condition on which begin_op stops waiting. */
  predicate MayBegin(s: Machine)
  {
    !s.committing && |s.hdr| + (s.outstanding + 1) * MAXOPBLOCKS <= LOGSIZE
  }

  ghost predicate BeginOp(s: Machine, t: Machine, op: OpId)
  {
    && Up(s) && op !in s.ops && MayBegin(s)
    && t == s.(outstanding := s.outstanding + 1, ops := s.ops[op := 0], current := s.current + [Began(op)])
  }

  /** A buffer changed and logged. If its block is not listed yet, the buffer it was read into was not dirty: with NBUF
      blocks listed every buffer is, and bget panics. */
  ghost predicate LogWrite(a: Area, s: Machine, t: Machine, op: OpId, b: Word, data: Sector)
  {
    && Up(s) && op in s.ops && b < |s.disk| && !a.Inside(b)
    && (b in s.hdr || |s.hdr| < NBUF)
    && t == s.(hdr := Append(s.hdr, b), cache := s.cache[b := data],
               ops := if b in s.hdr then s.ops else s.ops[op := s.ops[op] + 1],
               current := s.current + [Wrote(op, b, data)])
  }

  ghost predicate EndOp(s: Machine, t: Machine, op: OpId)
  {
    && Up(s) && op in s.ops
    && var e := s.(outstanding := s.outstanding - 1, ops := s.ops - {op}, current := s.current + [Ended(op)]);
       if s.committing then t == e.(panicked := true)
       else if e.outstanding == 0 then t == e.(committing := true, pc := Committing(0), base := s.disk)
       else t == e
  }

  /** With NBUF blocks listed there is no buffer for the first slot: the commit panics and only a crash follows. */
  ghost predicate CommitWrite(a: Area, s: Machine, t: Machine)
  {
    && s.pc.Committing? && s.pc.k < 2 * |s.hdr| + 2 && s.hdr != [] && |s.hdr| < NBUF
    && a.start + |s.hdr| < |s.base|
    && (forall i :: 0 <= i < |s.hdr| ==> s.hdr[i] < |s.base|)
    && var u := s.(pc := Committing(s.pc.k + 1),
                   disk := CommitImage(a, s.base, View(s.base, s.cache), s.hdr, s.pc.k + 1));
       if s.pc.k == |s.hdr| then t == u.(durable := s.durable + s.current, current := []) else t == u
  }

  /** commit() has returned, lh.n is 0, and end_op clears log.committing. */
  ghost predicate CommitDone(s: Machine, t: Machine)
  {
    && s.pc.Committing? && (s.hdr == [] || s.pc.k == 2 * |s.hdr| + 2)
    && t == s.(pc := Open, committing := false, hdr := [], cache := map[],
               durable := s.durable + s.current, current := [])
  }

  ghost predicate Crash(s: Machine, t: Machine)
  {
    t == s.(pc := Down, hdr := [], outstanding := 0, committing := false, cache := map[], ops := map[], current := [])
  }

  ghost predicate Boot(s: Machine, t: Machine)
  {
    s.pc.Down? && t == s.(pc := Recovering(0), base := s.disk)
  }

  ghost predicate RecoverWrite(a: Area, s: Machine, t: Machine)
  {
    && s.pc.Recovering? && GoodHeader(a, s.base)
    && var hdr := HeaderBlocks(s.base[a.start]);
       s.pc.k < |hdr| + 1
       && t == s.(pc := Recovering(s.pc.k + 1), disk := RecoveryImage(a, s.base, hdr, s.pc.k + 1))
  }

  ghost predicate RecoverDone(a: Area, s: Machine, t: Machine)
  {
    && s.pc.Recovering? && GoodHeader(a, s.base)
    && s.pc.k == HeaderCount(s.base[a.start]) + 1
    && t == s.(pc := Open)
  }

  ghost predicate Step(a: Area, s: Machine, t: Machine)
  {
    || (exists op :: BeginOp(s, t, op))
    || (exists op, b, data :: LogWrite(a, s, t, op, b, data))
    || (exists op :: EndOp(s, t, op))
    || CommitWrite(a, s, t)
    || CommitDone(s, t)
    || Crash(s, t)
    || Boot(s, t)
    || RecoverWrite(a, s, t)
    || RecoverDone(a, s, t)
  }

  ghost predicate Init(a: Area, origin: Image, s: Machine)
  {
    && a.start + a.size <= |origin| && Roomy(a) && HeaderCount(origin[a.start]) == 0
    && s == Machine(origin, [], 0, false, map[], Open, map[], false, origin, [], [])
  }

  ghost predicate Run(a: Area, origin: Image, run: seq<Machine>)
  {
    && run != [] && Init(a, origin, run[0])
    && forall i :: 0 <= i < |run| - 1 ==> Step(a, run[i], run[i+1])
  }

  // ---------- Reservations ----------

  /** Log entries the operations in progress may still add. */
  ghost function Unused(ops: map<OpId, nat>): int
    decreases |ops|
  {
    if ops == map[] then 0
    else var op :| op in ops; MAXOPBLOCKS - ops[op] + Unused(ops - {op})
  }

  lemma {:induction false} UnusedSplit(ops: map<OpId, nat>, op: OpId)
    requires op in ops
    ensures Unused(ops) == MAXOPBLOCKS - ops[op] + Unused(ops - {op})
    decreases |ops|
  {
    var x :| x in ops && Unused(ops) == MAXOPBLOCKS - ops[x] + Unused(ops - {x});
    if x != op {
      UnusedSplit(ops - {x}, op);
      UnusedSplit(ops - {op}, x);
      assert ops - {x} - {op} == ops - {op} - {x};
    }
  }

  lemma UnusedUpdate(ops: map<OpId, nat>, op: OpId, n: nat)
    ensures Unused(ops[op := n]) == MAXOPBLOCKS - n + Unused(ops - {op})
  {
    UnusedSplit(ops[op := n], op);
    assert ops[op := n] - {op} == ops - {op};
  }

  lemma {:induction false} UnusedBounds(ops: map<OpId, nat>)
    requires forall op :: op in ops ==> ops[op] <= MAXOPBLOCKS
    ensures 0 <= Unused(ops) <= MAXOPBLOCKS * |ops|
    decreases |ops|
  {
    if ops != map[] {
      var op :| op in ops;
      UnusedSplit(ops, op);
      UnusedBounds(ops - {op});
      assert |ops - {op}| == |ops| - 1;
    }
  }

  // ---------- The invariant ----------

  /** At every point, running or crashed, the disk recovers to the effect of the durable operations. */
  ghost predicate CrashSafe(a: Area, origin: Image, s: Machine)
  {
    && |s.disk| == |origin| && GoodHeader(a, s.disk)
    && SameHome(a, Recovered(a, s.disk), Effect(origin, s.durable))
    && WholeOperations(s.durable)
  }

  /** The counters agree with the operations in progress, and the list is one of distinct home blocks. */
  ghost predicate Counted(a: Area, s: Machine)
  {
    && !s.panicked
    && Proper(s.current) && Running(s.current) == s.ops.Keys
    && s.outstanding == |s.ops|
    && (s.committing <==> s.pc.Committing?)
    && (s.committing ==> s.ops == map[])
    && Listed(a, |s.disk|, s.hdr)
    && (forall b :: b in s.cache <==> b in s.hdr)
  }

  ghost predicate OpenInv(a: Area, origin: Image, s: Machine)
  {
    && a.start < |s.disk| && HeaderCount(s.disk[a.start]) == 0
    && SameHome(a, View(s.disk, s.cache), Effect(origin, s.durable + s.current))
  }

  ghost predicate CommitInv(a: Area, origin: Image, s: Machine)
    requires s.pc.Committing?
  {
    if |s.hdr| >= NBUF then s.pc.k == 0 && s.disk == s.base
    else
      && |s.base| == |s.disk| && s.pc.k <= 2 * |s.hdr| + 2
      && GoodEntries(a, |s.base|, s.hdr)
      && (s.hdr == [] ==> s.pc.k == 0)
      && s.disk == CommitImage(a, s.base, View(s.base, s.cache), s.hdr, s.pc.k)
      && ReadyToCommit(a, s.base, View(s.base, s.cache), s.hdr)
      && SameHome(a, View(s.base, s.cache), Effect(origin, s.durable + s.current))
      && (s.pc.k > |s.hdr| ==> s.current == [])
  }

  ghost predicate RecoverInv(a: Area, s: Machine)
    requires s.pc.Recovering?
  {
    && GoodHeader(a, s.base) && s.pc.k <= HeaderCount(s.base[a.start]) + 1
    && s.disk == RecoveryImage(a, s.base, HeaderBlocks(s.base[a.start]), s.pc.k)
    && s.hdr == [] && s.cache == map[] && s.ops == map[] && s.outstanding == 0 && !s.committing && s.current == []
  }

  ghost predicate Inv(a: Area, origin: Image, s: Machine)
  {
    && CrashSafe(a, origin, s)
    && !s.panicked && Roomy(a)
    && (Up(s) ==> Counted(a, s))
    && (s.pc.Open? ==> OpenInv(a, origin, s))
    && (s.pc.Committing? ==> CommitInv(a, origin, s))
    && (s.pc.Down? ==>
          s.hdr == [] && s.cache == map[] && s.ops == map[] && s.outstanding == 0 && !s.committing && s.current == [])
    && (s.pc.Recovering? ==> RecoverInv(a, s))
  }

  // ---------- Facts about histories ----------

  lemma {:induction false} WholeConcat(g: History, h: History)
    requires WholeOperations(g) && Proper(h)
    ensures Proper(g + h) && Running(g + h) == Running(h)
  {
    if h == [] {
      assert g + h == g;
    } else {
      WholeConcat(g, h[..|h|-1]);
      assert (g + h)[..|g + h|-1] == g + h[..|h|-1];
    }
  }

  lemma ExtendRunning(h: History, e: Event)
    requires Proper(h) && Allowed(Running(h), e)
    ensures Proper(h + [e]) && Running(h + [e]) == After(Running(h), e)
  {
    assert (h + [e])[..|h + [e]|-1] == h;
  }

  lemma ExtendEffect(d: Image, g: History, h: History, e: Event)
    ensures Effect(d, g + (h + [e])) == Apply(Effect(d, g + h), e)
  {
    var k := g + (h + [e]);
    assert k[..|k|-1] == g + h;
  }

  lemma SameHomeTransitive(a: Area, x: Image, y: Image, z: Image)
    requires SameHome(a, x, y) && SameHome(a, y, z)
    ensures SameHome(a, x, z) && SameHome(a, y, x)
  {
  }

  // ---------- Every step keeps the invariant ----------

  lemma BeginCounted(a: Area, s: Machine, t: Machine, op: OpId)
    requires Counted(a, s) && BeginOp(s, t, op)
    ensures Counted(a, t)
  {
    ExtendRunning(s.current, Began(op));
    assert t.ops.Keys == s.ops.Keys + {op};
  }

  lemma BeginKeeps(a: Area, origin: Image, s: Machine, t: Machine, op: OpId)
    requires Inv(a, origin, s) && BeginOp(s, t, op)
    ensures Inv(a, origin, t)
  {
    ExtendEffect(origin, s.durable, s.current, Began(op));
    BeginCounted(a, s, t, op);
  }

  lemma AppendGood(a: Area, n: nat, hdr: seq<Word>, b: Word)
    requires Listed(a, n, hdr) && b < n && !a.Inside(b)
    requires b !in hdr ==> |hdr| < NBUF
    ensures Listed(a, n, Append(hdr, b))
    ensures forall x :: x in Append(hdr, b) <==> x == b || x in hdr
  {
  }

  lemma WriteCounted(a: Area, s: Machine, t: Machine, op: OpId, b: Word, data: Sector)
    requires Counted(a, s) && LogWrite(a, s, t, op, b, data)
    ensures Counted(a, t)
  {
    ExtendRunning(s.current, Wrote(op, b, data));
    if b !in s.hdr {
      assert t.ops.Keys == s.ops.Keys;
      assert |t.ops.Keys| == |s.ops.Keys|;
    }
    AppendGood(a, |s.disk|, s.hdr, b);
  }

  lemma WriteKeeps(a: Area, origin: Image, s: Machine, t: Machine, op: OpId, b: Word, data: Sector)
    requires Inv(a, origin, s) && LogWrite(a, s, t, op, b, data)
    ensures Inv(a, origin, t)
  {
    hide Recovered, GoodHeader, WholeOperations, Unused;
    WriteCounted(a, s, t, op, b, data);
    ExtendEffect(origin, s.durable, s.current, Wrote(op, b, data));
    assert s.pc.Open?;
  }

  /** A block that has no log entry is not dirty, so a commit starts from a cache that agrees with the disk there. */
  lemma ReadyAtLastEnd(a: Area, origin: Image, s: Machine)
    requires CrashSafe(a, origin, s) && Counted(a, s) && OpenInv(a, origin, s)
    ensures ReadyToCommit(a, s.disk, View(s.disk, s.cache), s.hdr)
  {
  }

  lemma EndCounted(a: Area, s: Machine, t: Machine, op: OpId)
    requires Counted(a, s) && EndOp(s, t, op)
    ensures Counted(a, t) && !s.committing
  {
    ExtendRunning(s.current, Ended(op));
    assert (s.ops - {op}).Keys == s.ops.Keys - {op};
    assert |s.ops - {op}| == |s.ops| - 1;
  }

  lemma EndKeeps(a: Area, origin: Image, s: Machine, t: Machine, op: OpId)
    requires Inv(a, origin, s) && EndOp(s, t, op)
    ensures Inv(a, origin, t)
  {
    EndCounted(a, s, t, op);
    ExtendEffect(origin, s.durable, s.current, Ended(op));
    ReadyAtLastEnd(a, origin, s);
    if |s.hdr| < NBUF {
      RoomyFits(a, |s.disk|, s.hdr);
    }
    assert s.pc.Open?;
  }

  /** Image k of a commit recovers to the old effect up to the header write and to the new one from then on. */
  lemma CommitImageSafe(a: Area, base: Image, view: Image, hdr: seq<Word>, k: nat, before: Image, after: Image)
    requires ReadyToCommit(a, base, view, hdr) && GoodEntries(a, |base|, hdr) && k <= 2 * |hdr| + 2
    requires SameHome(a, base, before) && SameHome(a, view, after)
    ensures var d := CommitImage(a, base, view, hdr, k);
            && GoodHeader(a, d)
            && (k <= |hdr| ==> SameHome(a, Recovered(a, d), before))
            && (k > |hdr| ==> SameHome(a, Recovered(a, d), after))
  {
    CommitCrashAtomic(a, base, view, hdr, k);
    var r := Recovered(a, CommitImage(a, base, view, hdr, k));
    if k <= |hdr| {
      SameHomeTransitive(a, r, base, before);
    } else {
      SameHomeTransitive(a, r, view, after);
    }
  }

  /** Until the header is down the disk below the commit holds the durable operations. */
  lemma BaseIsDurable(a: Area, origin: Image, s: Machine)
    requires s.pc.Committing? && CommitInv(a, origin, s) && CrashSafe(a, origin, s) && s.pc.k <= |s.hdr| < NBUF
    ensures SameHome(a, s.base, Effect(origin, s.durable))
  {
    CommitBefore(a, s.base, View(s.base, s.cache), s.hdr, s.pc.k);
    SameHomeTransitive(a, Recovered(a, s.disk), s.base, s.base);
    SameHomeTransitive(a, s.base, Recovered(a, s.disk), Effect(origin, s.durable));
  }

  lemma SlotWriteSafe(a: Area, origin: Image, s: Machine, t: Machine)
    requires s.pc.Committing? && CommitInv(a, origin, s) && CrashSafe(a, origin, s) && CommitWrite(a, s, t)
    requires s.pc.k < |s.hdr|
    ensures CrashSafe(a, origin, t)
  {
    hide Recovered, GoodHeader, Effect, WholeOperations, ReadyToCommit, GoodEntries, CommitImage, View, SameHome;
    var view, e := View(s.base, s.cache), Effect(origin, s.durable);
    BaseIsDurable(a, origin, s);
    CommitImageSafe(a, s.base, view, s.hdr, s.pc.k + 1, e, view);
    assert t.disk == CommitImage(a, s.base, view, s.hdr, s.pc.k + 1) && t.durable == s.durable;
  }

  /** The header write makes the whole group durable at once; installing and clearing keep it. */
  lemma LaterWriteSafe(a: Area, origin: Image, s: Machine, t: Machine)
    requires s.pc.Committing? && CommitInv(a, origin, s) && CommitWrite(a, s, t)
    requires s.pc.k >= |s.hdr| && WholeOperations(s.durable) && WholeOperations(s.current)
    requires t.durable == s.durable + s.current
    ensures CrashSafe(a, origin, t)
  {
    CommitImageSafe(a, s.base, View(s.base, s.cache), s.hdr, s.pc.k + 1, s.base, Effect(origin, t.durable));
    WholeConcat(s.durable, s.current);
  }

  lemma CommitWriteInv(a: Area, origin: Image, s: Machine, t: Machine)
    requires s.pc.Committing? && CommitInv(a, origin, s) && CommitWrite(a, s, t)
    ensures CommitInv(a, origin, t)
  {
    assert t.durable + t.current == s.durable + s.current;
  }

  lemma CommitWriteSafe(a: Area, origin: Image, s: Machine, t: Machine)
    requires s.pc.Committing? && CommitInv(a, origin, s) && CrashSafe(a, origin, s) && CommitWrite(a, s, t)
    requires WholeOperations(s.current)
    ensures CrashSafe(a, origin, t)
  {
    if s.pc.k < |s.hdr| {
      SlotWriteSafe(a, origin, s, t);
    } else {
      assert s.current == [] ==> s.durable + s.current == s.durable;
      LaterWriteSafe(a, origin, s, t);
    }
  }

  lemma CommitWriteCounted(a: Area, s: Machine, t: Machine)
    requires Counted(a, s) && CommitWrite(a, s, t) && |t.disk| == |s.disk|
    ensures Counted(a, t) && t.pc.Committing? && WholeOperations(s.current)
  {
  }

  lemma CommitWriteKeeps(a: Area, origin: Image, s: Machine, t: Machine)
    requires Inv(a, origin, s) && CommitWrite(a, s, t)
    ensures Inv(a, origin, t)
  {
    CommitWriteInv(a, origin, s, t);
    CommitWriteCounted(a, s, t);
    CommitWriteSafe(a, origin, s, t);
  }

  /** The group is home and the log empty. */
  lemma GroupHome(a: Area, origin: Image, s: Machine)
    requires Inv(a, origin, s) && s.pc.Committing? && s.hdr != [] && s.pc.k == 2 * |s.hdr| + 2
    ensures HeaderCount(s.disk[a.start]) == 0 && SameHome(a, s.disk, Effect(origin, s.durable))
  {
    var view := View(s.base, s.cache);
    CommitEnd(a, s.base, view, s.hdr);
    assert s.durable + s.current == s.durable;
    SameHomeTransitive(a, s.disk, view, Effect(origin, s.durable));
  }

  lemma EmptyGroup(a: Area, origin: Image, s: Machine)
    requires Inv(a, origin, s) && s.pc.Committing? && s.hdr == []
    ensures HeaderCount(s.disk[a.start]) == 0 && SameHome(a, s.disk, Effect(origin, s.durable + s.current))
    ensures Recovered(a, s.disk) == s.disk
  {
    assert View(s.base, s.cache) == s.base;
    assert HeaderBlocks(s.disk[a.start]) == [];
  }

  lemma CommitDoneKeeps(a: Area, origin: Image, s: Machine, t: Machine)
    requires Inv(a, origin, s) && CommitDone(s, t)
    ensures Inv(a, origin, t)
  {
    WholeConcat(s.durable, s.current);
    assert View(t.disk, t.cache) == t.disk;
    assert t.durable + t.current == t.durable;
    if s.hdr == [] {
      EmptyGroup(a, origin, s);
    } else {
      GroupHome(a, origin, s);
      assert s.durable + s.current == s.durable;
    }
  }

  lemma CrashKeeps(a: Area, origin: Image, s: Machine, t: Machine)
    requires Inv(a, origin, s) && Crash(s, t)
    ensures Inv(a, origin, t)
  {
  }

  lemma RecoverWriteSafe(a: Area, base: Image, e: Image, k: nat)
    requires GoodHeader(a, base) && k <= HeaderCount(base[a.start])
    requires var hdr := HeaderBlocks(base[a.start]); var d := RecoveryImage(a, base, hdr, k);
             GoodHeader(a, d) && SameHome(a, Recovered(a, d), e)
    ensures var hdr := HeaderBlocks(base[a.start]); var d := RecoveryImage(a, base, hdr, k + 1);
            GoodHeader(a, d) && SameHome(a, Recovered(a, d), e)
  {
    hide Recovered, RecoveryImage;
    var hdr := HeaderBlocks(base[a.start]);
    RecoveryCrashAtomic(a, base, k);
    RecoveryCrashAtomic(a, base, k + 1);
    var d, d' := RecoveryImage(a, base, hdr, k), RecoveryImage(a, base, hdr, k + 1);
    assert SameHome(a, Recovered(a, d'), e);
  }

  lemma RecoverWriteKeeps(a: Area, origin: Image, s: Machine, t: Machine)
    requires Inv(a, origin, s) && RecoverWrite(a, s, t)
    ensures Inv(a, origin, t)
  {
    hide Recovered, RecoveryImage, WholeOperations, SameHome;
    RecoverWriteSafe(a, s.base, Effect(origin, s.durable), s.pc.k);
    assert CrashSafe(a, origin, t);
  }

  lemma RecoverDoneKeeps(a: Area, origin: Image, s: Machine, t: Machine)
    requires Inv(a, origin, s) && RecoverDone(a, s, t)
    ensures Inv(a, origin, t)
  {
    RecoveryCrashAtomic(a, s.base, s.pc.k);
    assert View(t.disk, t.cache) == t.disk;
    assert t.durable + t.current == t.durable;
    assert Recovered(a, s.disk) == s.disk;
  }

  lemma StepKeeps(a: Area, origin: Image, s: Machine, t: Machine)
    requires Inv(a, origin, s) && Step(a, s, t)
    ensures Inv(a, origin, t)
  {
    if op :| BeginOp(s, t, op) {
      BeginKeeps(a, origin, s, t, op);
    } else if op, b, data :| LogWrite(a, s, t, op, b, data) {
      WriteKeeps(a, origin, s, t, op, b, data);
    } else if op :| EndOp(s, t, op) {
      EndKeeps(a, origin, s, t, op);
    } else if CommitWrite(a, s, t) {
      CommitWriteKeeps(a, origin, s, t);
    } else if CommitDone(s, t) {
      CommitDoneKeeps(a, origin, s, t);
    } else if Crash(s, t) {
      CrashKeeps(a, origin, s, t);
    } else if Boot(s, t) {
    } else if RecoverWrite(a, s, t) {
      RecoverWriteKeeps(a, origin, s, t);
    } else {
      RecoverDoneKeeps(a, origin, s, t);
    }
  }

  lemma InitInv(a: Area, origin: Image, s: Machine)
    requires Init(a, origin, s)
    ensures Inv(a, origin, s)
  {
    assert View(origin, map[]) == origin;
    assert HeaderBlocks(origin[a.start]) == [];
  }

  lemma {:induction false} RunInv(a: Area, origin: Image, run: seq<Machine>, i: nat)
    requires Run(a, origin, run) && i < |run|
    ensures Inv(a, origin, run[i])
  {
    if i == 0 {
      InitInv(a, origin, run[0]);
    } else {
      RunInv(a, origin, run, i - 1);
      StepKeeps(a, origin, run[i-1], run[i-1+1]);
    }
  }

  // ---------- Theorems over all runs ----------

  /** Crash atomicity and group commit: in every state of every run, whatever the interleaving and wherever it
      crashes (also while recovering), recovery yields exactly the effect of a sequence of whole operations. */
  lemma RecoversWholeOperations(a: Area, origin: Image, run: seq<Machine>, i: nat)
    requires Run(a, origin, run) && i < |run|
    ensures var s := run[i];
            && GoodHeader(a, s.disk) && WholeOperations(s.durable)
            && SameHome(a, Recovered(a, s.disk), Effect(origin, s.durable))
  {
    RunInv(a, origin, run, i);
  }

  /** The panic in end_op is unreachable; a commit runs only when no operation is in progress; header entries are
      distinct and fit in the header. */
  lemma CommitExcludesOperations(a: Area, origin: Image, run: seq<Machine>, i: nat)
    requires Run(a, origin, run) && i < |run|
    ensures var s := run[i];
            && !s.panicked
            && (s.committing ==> s.outstanding == 0 && s.ops == map[])
            && (Up(s) ==> s.outstanding == |s.ops| && Distinct(s.hdr) && |s.hdr| <= LOGSIZE)
  {
    RunInv(a, origin, run, i);
  }

  // ---------- Reservations ----------

  /** So far every operation has kept to what begin_op reserves for it. */
  ghost predicate Modest(run: seq<Machine>, i: nat)
    requires i < |run|
  {
    forall j, op :: 0 <= j <= i && op in run[j].ops ==> run[j].ops[op] <= MAXOPBLOCKS
  }

  ghost predicate Reserved(s: Machine)
  {
    Up(s) ==> |s.hdr| + Unused(s.ops) <= LOGSIZE
  }

  lemma WriteReserved(a: Area, s: Machine, t: Machine, op: OpId, b: Word, data: Sector)
    requires LogWrite(a, s, t, op, b, data) && Reserved(s)
    ensures Reserved(t)
  {
    hide Unused;
    if b !in s.hdr {
      UnusedSplit(s.ops, op);
      UnusedUpdate(s.ops, op, s.ops[op] + 1);
    }
  }

  lemma OtherReserved(s: Machine, t: Machine, op: OpId)
    requires (BeginOp(s, t, op) || EndOp(s, t, op)) && (Up(s) ==> s.outstanding == |s.ops|)
    requires Reserved(s) && forall op :: op in s.ops ==> s.ops[op] <= MAXOPBLOCKS
    ensures Reserved(t)
  {
    hide Unused;
    UnusedBounds(s.ops);
    if BeginOp(s, t, op) {
      UnusedUpdate(s.ops, op, 0);
      assert s.ops - {op} == s.ops;
    } else {
      UnusedSplit(s.ops, op);
    }
  }

  lemma StepReserved(a: Area, s: Machine, t: Machine)
    requires Step(a, s, t) && Reserved(s) && (Up(s) ==> s.outstanding == |s.ops|)
    requires forall op :: op in s.ops ==> s.ops[op] <= MAXOPBLOCKS
    requires s.pc.Recovering? ==> s.ops == map[] && s.hdr == []
    ensures Reserved(t)
  {
    hide CommitImage, RecoveryImage, HeaderBlocks, GoodHeader, View, LogWrite, BeginOp, EndOp;
    if op :| BeginOp(s, t, op) {
      OtherReserved(s, t, op);
    } else if op, b, data :| LogWrite(a, s, t, op, b, data) {
      WriteReserved(a, s, t, op, b, data);
    } else if op :| EndOp(s, t, op) {
      OtherReserved(s, t, op);
    } else {
      UnusedBounds(s.ops);
    }
  }

  /** While operations keep to their reservation, the entries and all that operations in progress may still add fit in
      the header. */
  lemma {:induction false} ReservationsHold(a: Area, origin: Image, run: seq<Machine>, i: nat)
    requires Run(a, origin, run) && i < |run| && Modest(run, i)
    ensures Reserved(run[i]) && (Up(run[i]) ==> 0 <= Unused(run[i].ops))
  {
    hide Step;
    UnusedBounds(run[i].ops);
    if i > 0 {
      ReservationsHold(a, origin, run, i - 1);
      RunInv(a, origin, run, i - 1);
      hide Reserved, CrashSafe, OpenInv, CommitInv;
      assert Step(a, run[i-1], run[i-1+1]);
      StepReserved(a, run[i-1], run[i]);
    }
  }

  /** The blocks that operation op has given to log_write since it began. */
  ghost function WrittenBy(h: History, op: OpId): set<Word>
  {
    if h == [] then {}
    else
      var before := WrittenBy(h[..|h|-1], op);
      match h[|h|-1]
      case Began(o) => if o == op then {} else before
      case Wrote(o, b, _) => if o == op then before + {b} else before
      case Ended(_) => before
  }

  /** An operation has added no more entries than it has written blocks, and all of those are listed. */
  ghost predicate Absorbed(s: Machine)
  {
    forall op :: op in s.ops ==>
      s.ops[op] <= |WrittenBy(s.current, op)| && forall b :: b in WrittenBy(s.current, op) ==> b in s.hdr
  }

  lemma WrittenNext(h: History, e: Event, op: OpId)
    ensures WrittenBy(h + [e], op) ==
            if e == Began(op) then {}
            else if e.Wrote? && e.op == op then WrittenBy(h, op) + {e.block}
            else WrittenBy(h, op)
  {
    assert (h + [e])[..|h + [e]|-1] == h;
  }

  lemma WriteAbsorbed(a: Area, s: Machine, t: Machine, op: OpId, b: Word, data: Sector)
    requires LogWrite(a, s, t, op, b, data) && Absorbed(s)
    ensures Absorbed(t)
  {
    forall o | o in t.ops
      ensures t.ops[o] <= |WrittenBy(t.current, o)| && forall x :: x in WrittenBy(t.current, o) ==> x in t.hdr
    {
      WrittenNext(s.current, Wrote(op, b, data), o);
      hide WrittenBy;
      if o == op && b in s.hdr {
        SubsetSize(WrittenBy(s.current, o), WrittenBy(t.current, o));
      }
    }
  }

  lemma OtherAbsorbed(s: Machine, t: Machine, op: OpId)
    requires (BeginOp(s, t, op) || EndOp(s, t, op)) && Absorbed(s)
    ensures Absorbed(t)
  {
    forall o | o in t.ops
      ensures t.ops[o] <= |WrittenBy(t.current, o)| && forall x :: x in WrittenBy(t.current, o) ==> x in t.hdr
    {
      WrittenNext(s.current, Began(op), o);
      WrittenNext(s.current, Ended(op), o);
      hide WrittenBy;
    }
  }

  lemma StepAbsorbed(a: Area, s: Machine, t: Machine)
    requires Step(a, s, t) && Absorbed(s)
    requires s.pc.Committing? || s.pc.Recovering? || s.pc.Down? ==> s.ops == map[]
    ensures Absorbed(t)
  {
    hide CommitImage, RecoveryImage, HeaderBlocks, GoodHeader, View, LogWrite, BeginOp, EndOp, WrittenBy;
    if op :| BeginOp(s, t, op) {
      OtherAbsorbed(s, t, op);
    } else if op, b, data :| LogWrite(a, s, t, op, b, data) {
      WriteAbsorbed(a, s, t, op, b, data);
    } else if op :| EndOp(s, t, op) {
      OtherAbsorbed(s, t, op);
    }
  }

  /** In every state of every run an operation has added at most as many entries as it has written blocks, whatever
      other operations, commits and crashes came in between. */
  lemma {:induction false} EntriesAreBlocks(a: Area, origin: Image, run: seq<Machine>, i: nat)
    requires Run(a, origin, run) && i < |run|
    ensures Absorbed(run[i])
  {
    hide Step, WrittenBy;
    if i > 0 {
      EntriesAreBlocks(a, origin, run, i - 1);
      RunInv(a, origin, run, i - 1);
      hide CrashSafe, OpenInv, CommitInv, Absorbed;
      assert Step(a, run[i-1], run[i-1+1]);
      StepAbsorbed(a, run[i-1], run[i]);
    }
  }

  /** So operations that write at most MAXOPBLOCKS different blocks each keep to their reservations. */
  lemma FewBlocksSuffice(a: Area, origin: Image, run: seq<Machine>, i: nat)
    requires Run(a, origin, run) && i < |run|
    requires forall j, op :: 0 <= j <= i && op in run[j].ops ==> |WrittenBy(run[j].current, op)| <= MAXOPBLOCKS
    ensures Modest(run, i) && Reserved(run[i]) && (Up(run[i]) ==> 0 <= Unused(run[i].ops))
  {
    hide Run, WrittenBy, Reserved;
    forall j, op | 0 <= j <= i && op in run[j].ops
      ensures run[j].ops[op] <= MAXOPBLOCKS
    {
      EntriesAreBlocks(a, origin, run, j);
    }
    ReservationsHold(a, origin, run, i);
  }

  lemma PrefixTransitive(x: History, y: History, z: History)
    requires x <= y && y <= z
    ensures x <= z
  {
  }

  /** What is durable stays durable over any part of a run, crashes included. */
  lemma {:induction false} DurableGrows(a: Area, origin: Image, run: seq<Machine>, i: nat, j: nat)
    requires Run(a, origin, run) && i <= j < |run|
    ensures run[i].durable <= run[j].durable
    decreases j
  {
    hide Step, Init;
    if i < j {
      DurableGrows(a, origin, run, i, j - 1);
      StepDurable(a, run[j-1], run[j-1+1]);
      PrefixTransitive(run[i].durable, run[j-1].durable, run[j].durable);
    }
  }

  /** A group becomes durable as a unit, and only a crash loses events. */
  lemma StepDurable(a: Area, s: Machine, t: Machine)
    requires Step(a, s, t)
    ensures t.durable == s.durable || (t.durable == s.durable + s.current && t.current == [])
    ensures s.durable <= t.durable
    ensures t.pc.Down? || s.durable + s.current <= t.durable + t.current
  {
    hide CommitImage, RecoveryImage, HeaderBlocks, GoodHeader, View;
    if op :| BeginOp(s, t, op) {
      KeepsOrder(s.durable, s.current, Began(op));
    } else if op, b, data :| LogWrite(a, s, t, op, b, data) {
      KeepsOrder(s.durable, s.current, Wrote(op, b, data));
    } else if op :| EndOp(s, t, op) {
      KeepsOrder(s.durable, s.current, Ended(op));
    } else {
      assert s.durable + s.current + [] == s.durable + s.current;
    }
  }

  lemma KeepsOrder(x: History, y: History, e: Event)
    ensures x + y <= x + (y + [e])
  {
    assert x + (y + [e]) == (x + y) + [e];
  }

  // ---------- The last end_op commits ----------

  /** With no operation inside and no commit running, nothing is waiting to be committed. */
  ghost predicate Settled(s: Machine)
  {
    s.pc.Open? && s.ops == map[] ==> s.current == []
  }

  lemma StepSettled(a: Area, origin: Image, s: Machine, t: Machine)
    requires Inv(a, origin, s) && Step(a, s, t) && Settled(s)
    ensures Settled(t)
  {
    hide CommitImage, RecoveryImage, HeaderBlocks, GoodHeader, View, CrashSafe, OpenInv, CommitInv;
    if op :| BeginOp(s, t, op) {
      assert op in t.ops;
    } else if op, b, data :| LogWrite(a, s, t, op, b, data) {
      assert op in t.ops;
    } else if op :| EndOp(s, t, op) {
      assert op in s.ops && |s.ops - {op}| == |s.ops| - 1;
    }
  }

  lemma {:induction false} RunSettled(a: Area, origin: Image, run: seq<Machine>, i: nat)
    requires Run(a, origin, run) && i < |run|
    ensures Settled(run[i])
  {
    hide Step;
    if i > 0 {
      RunSettled(a, origin, run, i - 1);
      RunInv(a, origin, run, i - 1);
      hide Inv;
      assert Step(a, run[i-1], run[i-1+1]);
      StepSettled(a, origin, run[i-1], run[i]);
    }
  }

  /** Unless there is a crash, no event is lost. */
  lemma {:induction false} NothingLost(a: Area, origin: Image, run: seq<Machine>, i: nat, j: nat)
    requires Run(a, origin, run) && i <= j < |run| && forall k :: i < k <= j ==> !run[k].pc.Down?
    ensures run[i].durable + run[i].current <= run[j].durable + run[j].current
    decreases j
  {
    hide Step, Init;
    if i < j {
      NothingLost(a, origin, run, i, j - 1);
      StepDurable(a, run[j-1], run[j-1+1]);
      PrefixTransitive(run[i].durable + run[i].current, run[j-1].durable + run[j-1].current,
                       run[j].durable + run[j].current);
    }
  }

  /** What end_op promises: whenever the log is open and every operation has ended, all that has been done since any
      earlier point, unless a crash came between, is durable, and the disk recovers to it. */
  lemma EndedIsDurable(a: Area, origin: Image, run: seq<Machine>, i: nat, j: nat)
    requires Run(a, origin, run) && i <= j < |run| && run[j].pc.Open? && run[j].ops == map[]
    ensures run[j].current == [] && GoodHeader(a, run[j].disk)
    ensures SameHome(a, Recovered(a, run[j].disk), Effect(origin, run[j].durable))
    ensures (forall k :: i < k <= j ==> !run[k].pc.Down?) ==> run[i].durable + run[i].current <= run[j].durable
  {
    RunSettled(a, origin, run, j);
    RecoversWholeOperations(a, origin, run, j);
    hide Run;
    assert run[j].durable + [] == run[j].durable;
    if forall k :: i < k <= j ==> !run[k].pc.Down? {
      NothingLost(a, origin, run, i, j);
    }
  }

  /** And a commit that has begun can always go on to its end, unless it had NBUF blocks to write. */
  lemma CommitProceeds(a: Area, origin: Image, run: seq<Machine>, i: nat)
    requires Run(a, origin, run) && i < |run| && run[i].pc.Committing? && |run[i].hdr| < NBUF
    ensures run[i].pc.k <= 2 * |run[i].hdr| + 2
    ensures exists t :: (CommitWrite(a, run[i], t) && t.pc == Committing(run[i].pc.k + 1)) || CommitDone(run[i], t)
  {
    RunInv(a, origin, run, i);
    hide Run, CrashSafe, Effect, SameHome, CommitImage, ReadyToCommit, View;
    assert GoodEntries(a, |run[i].base|, run[i].hdr);
    hide Inv;
    NextWrite(a, run[i]);
  }

  lemma NextWrite(a: Area, s: Machine)
    requires s.pc.Committing? && |s.hdr| < NBUF && GoodEntries(a, |s.base|, s.hdr) && s.pc.k <= 2 * |s.hdr| + 2
    ensures exists t :: (CommitWrite(a, s, t) && t.pc == Committing(s.pc.k + 1)) || CommitDone(s, t)
  {
    ReadyFits(a, s);
    hide CommitImage, GoodEntries, View;
    if s.hdr == [] || s.pc.k == 2 * |s.hdr| + 2 {
      assert CommitDone(s, s.(pc := Open, committing := false, hdr := [], cache := map[],
                              durable := s.durable + s.current, current := []));
    } else {
      var u := s.(pc := Committing(s.pc.k + 1),
                  disk := CommitImage(a, s.base, View(s.base, s.cache), s.hdr, s.pc.k + 1));
      assert CommitWrite(a, s, if s.pc.k == |s.hdr| then u.(durable := s.durable + s.current, current := []) else u);
    }
  }

  lemma ReadyFits(a: Area, s: Machine)
    requires GoodEntries(a, |s.base|, s.hdr)
    ensures a.start + |s.hdr| < |s.base| && forall i :: 0 <= i < |s.hdr| ==> s.hdr[i] < |s.base|
  {
    hide View;
  }

  /** Between operations, what the running system reads is the effect of everything done so far. */
  lemma ViewIsEffect(a: Area, origin: Image, run: seq<Machine>, i: nat)
    requires Run(a, origin, run) && i < |run| && run[i].pc.Open?
    ensures SameHome(a, View(run[i].disk, run[i].cache), Effect(origin, run[i].durable + run[i].current))
  {
    RunInv(a, origin, run, i);
  }
}
