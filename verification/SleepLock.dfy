/** Sleep locks over spinlocks, sleep and wakeup: every interleaving of any number of processes on any number of CPUs.
    */
module SleepLock {
  import opened Cpus

  datatype ProcState = Runnable | Running | Sleeping

  /** What a process sleeps on: this lock, or something else. */
  datatype Chan = NoChan | OnLock | Elsewhere

  /** Where a process is. held says whether it holds the sleep lock while it is elsewhere in the kernel. */
  datatype Pc =
    | Out(held: bool)           // not in this lock's code
    | AcqStart                  // acquiresleep: before acquire(&lk->lk)
    | AcqTest                   // before while (lk->locked)
    | AcqSet                    // before lk->locked = 1
    | AcqRel                    // before release(&lk->lk)
    | SlpAcq                    // sleep: before acquire(&ptable.lock)
    | SlpRel                    // before release(lk)
    | SlpMark                   // before p->chan = chan; p->state = SLEEPING
    | SlpSwitch                 // before swtch in sched
    | SlpOff                    // switched out
    | SlpBack                   // back from sched
    | SlpReacq                  // before acquire(lk)
    | RelStart                  // releasesleep: before acquire(&lk->lk)
    | RelClear                  // before lk->locked = 0
    | RelWake                   // wakeup: before acquire(&ptable.lock)
    | RelScan(i: nat)           // at process i of the scan
    | RelRel                    // before release(&lk->lk)
    | PauseAcq(held: bool)      // yield, or sleep on something else: before acquire(&ptable.lock)
    | PauseMark(held: bool)     // before the state is set
    | PauseSwitch(held: bool)   // before swtch
    | PauseOff(held: bool)      // switched out
    | PauseBack(held: bool)     // back from sched

  datatype Proc = Proc(pc: Pc, st: ProcState, chan: Chan)

  datatype State = State(procs: seq<Proc>, cpus: seq<Cpu>, ptable: Lock, inner: Lock, locked: bool, pid: nat)

  predicate HasInner(pc: Pc)
  {
    pc.AcqTest? || pc.AcqSet? || pc.AcqRel? || pc.SlpAcq? || pc.SlpRel? || pc.RelClear? || pc.RelWake? || pc.RelScan?
    || pc.RelRel?
  }

  predicate HasPtable(pc: Pc)
  {
    || pc.SlpRel? || pc.SlpMark? || pc.SlpSwitch? || pc.SlpBack? || pc.RelScan?
    || pc.PauseMark? || pc.PauseSwitch? || pc.PauseBack?
  }

  predicate Off(pc: Pc)
  {
    pc.SlpOff? || pc.PauseOff?
  }

  /** Between lk->locked = 1 and the matching lk->locked = 0. */
  predicate Holds(pc: Pc)
  {
    || pc.AcqRel? || pc.RelStart? || pc.RelClear?
    || ((pc.Out? || pc.PauseAcq? || pc.PauseMark? || pc.PauseSwitch? || pc.PauseOff? || pc.PauseBack?) && pc.held)
  }

  /** p sleeps on this lock, or is about to and no longer holds the inner spinlock. */
  predicate Committed(p: Proc)
  {
    p.pc.SlpMark? || (p.st.Sleeping? && p.chan.OnLock?)
  }

  // ---------- Steps ----------

  /** Process p goes on at pc. */
  function At(s: State, p: nat, pc: Pc): State
    requires p < |s.procs|
  {
    s.(procs := s.procs[p := s.procs[p].(pc := pc)])
  }

  predicate RunsOn(s: State, c: nat, p: nat)
  {
    Executes(s.cpus, |s.procs|, c, p)
  }

  /** Process p on CPU c calls acquiresleep, or releasesleep if it holds the lock. */
  predicate Call(s: State, s': State, c: nat, p: nat)
  {
    RunsOn(s, c, p) &&
    var pc := s.procs[p].pc;
    pc.Out? && s' == At(s, p, if pc.held then RelStart else AcqStart)
  }

  /** It does something that gives up the CPU: yield, or sleep on something else. */
  predicate Pause(s: State, s': State, c: nat, p: nat)
  {
    RunsOn(s, c, p) &&
    var pc := s.procs[p].pc;
    pc.Out? && s' == At(s, p, PauseAcq(pc.held))
  }

  /** acquire(&lk->lk), in the three places. */
  predicate TakeInner(s: State, s': State, c: nat, p: nat)
  {
    RunsOn(s, c, p) && s.inner.Free? &&
    var pc := s.procs[p].pc;
    && (pc.AcqStart? || pc.SlpReacq? || pc.RelStart?)
    && s' == At(s, p, if pc.RelStart? then RelClear else AcqTest).(inner := By(c))
  }

  /** release(&lk->lk), in the three places. */
  predicate DropInner(s: State, s': State, c: nat, p: nat)
  {
    RunsOn(s, c, p) &&
    var pc := s.procs[p].pc;
    && (pc.AcqRel? || pc.SlpRel? || pc.RelRel?)
    && s' == At(s, p, if pc.SlpRel? then SlpMark else Out(pc.AcqRel?)).(inner := Free)
  }

  /** while (lk->locked). */
  predicate Test(s: State, s': State, c: nat, p: nat)
  {
    && RunsOn(s, c, p) && s.procs[p].pc.AcqTest?
    && s' == At(s, p, if s.locked then SlpAcq else AcqSet)
  }

  /** lk->locked = 1; lk->pid = thisproc()->pid. */
  predicate Set(s: State, s': State, c: nat, p: nat)
  {
    && RunsOn(s, c, p) && s.procs[p].pc.AcqSet?
    && s' == At(s, p, AcqRel).(locked := true, pid := p)
  }

  /** lk->locked = 0; lk->pid = 0. */
  predicate Clear(s: State, s': State, c: nat, p: nat)
  {
    && RunsOn(s, c, p) && s.procs[p].pc.RelClear?
    && s' == At(s, p, RelWake).(locked := false, pid := 0)
  }

  /** acquire(&ptable.lock), in sleep, wakeup and yield. */
  predicate TakePtable(s: State, s': State, c: nat, p: nat)
  {
    RunsOn(s, c, p) && s.ptable.Free? &&
    var pc := s.procs[p].pc;
    && (pc.SlpAcq? || pc.RelWake? || pc.PauseAcq?)
    && s' == At(s, p, if pc.SlpAcq? then SlpRel else if pc.RelWake? then RelScan(0) else PauseMark(pc.held))
               .(ptable := By(c))
  }

  /** release(&ptable.lock), after the scan and after sched; a process back from sleep clears its channel first. */
  predicate DropPtable(s: State, s': State, c: nat, p: nat)
  {
    RunsOn(s, c, p) &&
    var pc := s.procs[p].pc;
    (pc.SlpBack? || pc.PauseBack? || (pc.RelScan? && pc.i == |s.procs|)) &&
    var pc' := if pc.SlpBack? then SlpReacq else if pc.PauseBack? then Out(pc.held) else RelRel;
    s' == s.(procs := s.procs[p := Proc(pc', s.procs[p].st, if pc.RelScan? then s.procs[p].chan else NoChan)],
             ptable := Free)
  }

  /** p->chan = chan; p->state = SLEEPING, or what yield or another sleep does. */
  predicate Mark(s: State, s': State, c: nat, p: nat)
  {
    RunsOn(s, c, p) &&
    var pc := s.procs[p].pc;
    && (pc.SlpMark? || pc.PauseMark?)
    && (pc.SlpMark? ==> s' == s.(procs := s.procs[p := Proc(SlpSwitch, Sleeping, OnLock)]))
    && (pc.PauseMark? ==>
        || s' == s.(procs := s.procs[p := Proc(PauseSwitch(pc.held), Runnable, NoChan)])
        || s' == s.(procs := s.procs[p := Proc(PauseSwitch(pc.held), Sleeping, Elsewhere)]))
  }

  /** swtch to the scheduler, which goes on with the next process, still holding ptable.lock. */
  predicate Switch(s: State, s': State, c: nat, p: nat)
  {
    RunsOn(s, c, p) &&
    var pc := s.procs[p].pc;
    && (pc.SlpSwitch? || pc.PauseSwitch?)
    && s' == At(s, p, if pc.SlpSwitch? then SlpOff else PauseOff(pc.held)).(cpus := s.cpus[c := Scan(p + 1)])
  }

  /** wakeup looks at process i. */
  predicate Wake(s: State, s': State, c: nat, p: nat)
  {
    RunsOn(s, c, p) &&
    var pc := s.procs[p].pc;
    pc.RelScan? && pc.i < |s.procs| &&
    var procs := s.procs[p := s.procs[p].(pc := RelScan(pc.i + 1))];
    s' == s.(procs := if Sleeping == procs[pc.i].st && OnLock == procs[pc.i].chan
                      then procs[pc.i := procs[pc.i].(st := Runnable)]
                      else procs)
  }

  /** Some wakeup on another channel wakes q. */
  predicate WakeOther(s: State, s': State, q: nat)
  {
    && q < |s.procs| && s.ptable.Free? && s.procs[q].st.Sleeping? && s.procs[q].chan.Elsewhere?
    && s' == s.(procs := s.procs[q := s.procs[q].(st := Runnable)])
  }

  /** The scheduler's acquire(&ptable.lock). */
  predicate Begin(s: State, s': State, c: nat)
  {
    c < |s.cpus| && s.cpus[c].Want? && s.ptable.Free? && s' == s.(ptable := By(c), cpus := s.cpus[c := Scan(0)])
  }

  /** It passes over a process that is not runnable. */
  predicate Skip(s: State, s': State, c: nat)
  {
    && c < |s.cpus| && s.cpus[c].Scan? && s.cpus[c].i < |s.procs| && !s.procs[s.cpus[c].i].st.Runnable?
    && s' == s.(cpus := s.cpus[c := Scan(s.cpus[c].i + 1)])
  }

  /** At the end of the table it releases the lock. */
  predicate End(s: State, s': State, c: nat)
  {
    && c < |s.cpus| && s.cpus[c].Scan? && s.cpus[c].i >= |s.procs|
    && s' == s.(ptable := Free, cpus := s.cpus[c := Want])
  }

  predicate Dispatch(s: State, s': State, c: nat)
  {
    && c < |s.cpus| && s.cpus[c].Scan? && s.cpus[c].i < |s.procs| && s.procs[s.cpus[c].i].st.Runnable?
    && s' == Dispatched(s, c, s.cpus[c].i)
  }

  predicate Schedule(s: State, s': State, c: nat)
  {
    Begin(s, s', c) || Skip(s, s', c) || End(s, s', c) || Dispatch(s, s', c)
  }

  /** c->proc = p; p->state = RUNNING; swtch. */
  function Dispatched(s: State, c: nat, i: nat): State
    requires c < |s.cpus| && i < |s.procs|
  {
    var p := s.procs[i];
    var pc := if p.pc.SlpOff? then SlpBack else if p.pc.PauseOff? then PauseBack(p.pc.held) else p.pc;
    s.(procs := s.procs[i := Proc(pc, Running, p.chan)], cpus := s.cpus[c := Runs(i)])
  }

  predicate ProcessStep(s: State, s': State, c: nat, p: nat)
  {
    || Call(s, s', c, p) || Pause(s, s', c, p) || TakeInner(s, s', c, p) || DropInner(s, s', c, p) || Test(s, s', c, p)
      || Set(s, s', c, p)
    || Clear(s, s', c, p) || TakePtable(s, s', c, p) || DropPtable(s, s', c, p) || Mark(s, s', c, p)
      || Switch(s, s', c, p)
    || Wake(s, s', c, p)
  }

  ghost predicate Next(s: State, s': State)
  {
    || (exists c, p :: ProcessStep(s, s', c, p))
    || (exists c :: Schedule(s, s', c))
    || (exists q :: WakeOther(s, s', q))
  }

  /** All processes runnable outside the lock's code, all CPUs idle, the lock free. */
  ghost predicate Init(s: State)
  {
    && (forall p :: 0 <= p < |s.procs| ==> s.procs[p] == Proc(PauseOff(false), Runnable, NoChan))
    && (forall c :: 0 <= c < |s.cpus| ==> s.cpus[c] == Want)
    && s.ptable.Free? && s.inner.Free? && !s.locked && s.pid == 0
  }

  /** A run of the machine. */
  ghost predicate Run(r: seq<State>)
  {
    r != [] && Init(r[0]) && forall k :: 0 <= k < |r| - 1 ==> Next(r[k], r[k + 1])
  }

  function Last(r: seq<State>): State
    requires r != []
  {
    r[|r| - 1]
  }

  // ---------- Invariants ----------

  /** A process on a CPU is on no other, and is not switched out. */
  ghost predicate OnCpus(s: State)
  {
    && (forall c :: 0 <= c < |s.cpus| && s.cpus[c].Runs? ==> s.cpus[c].p < |s.procs| && !Off(s.procs[s.cpus[c].p].pc))
    && (forall c, d :: 0 <= c < d < |s.cpus| && s.cpus[c].Runs? ==> s.cpus[c] != s.cpus[d])
  }

  /** The fields of a process agree with where it is. */
  predicate Agrees(p: Proc)
  {
    && (p.st.Running? <==> !(Off(p.pc) || p.pc.SlpSwitch? || p.pc.PauseSwitch?))
    && (p.pc.SlpSwitch? ==> p.st.Sleeping?)
    && (p.chan.OnLock? <==> p.pc.SlpSwitch? || p.pc.SlpOff? || p.pc.SlpBack?)
  }

  ghost predicate States(s: State)
  {
    forall p :: 0 <= p < |s.procs| ==> Agrees(s.procs[p])
  }

  /** The inner spinlock is held by the CPU of the process that has it. */
  ghost predicate InnerHeld(s: State)
  {
    && (s.inner.By? ==> s.inner.cpu < |s.cpus| && s.cpus[s.inner.cpu].Runs?
                        && s.cpus[s.inner.cpu].p < |s.procs| && HasInner(s.procs[s.cpus[s.inner.cpu].p].pc))
    && (forall p :: 0 <= p < |s.procs| && HasInner(s.procs[p].pc) ==>
        s.inner.By? && s.inner.cpu < |s.cpus| && s.cpus[s.inner.cpu] == Runs(p))
  }

  /** ptable.lock is held by a CPU whose scheduler scans or whose process has it. */
  ghost predicate PtableHeld(s: State)
  {
    && (s.ptable.By? ==> s.ptable.cpu < |s.cpus| && match s.cpus[s.ptable.cpu]
          case Want => false
          case Scan(i) => true
          case Runs(p) => p < |s.procs| && HasPtable(s.procs[p].pc))
    && (forall c :: 0 <= c < |s.cpus| && s.cpus[c].Scan? ==> s.ptable == By(c))
    && (forall p :: 0 <= p < |s.procs| && HasPtable(s.procs[p].pc) ==>
        s.ptable.By? && s.ptable.cpu < |s.cpus| && s.cpus[s.ptable.cpu] == Runs(p))
  }

  /** The lock word says whether some process holds the lock, and pid says which. */
  ghost predicate Exclusive(s: State)
  {
    && (s.locked ==> s.pid < |s.procs| && Holds(s.procs[s.pid].pc))
    && (forall p :: 0 <= p < |s.procs| && Holds(s.procs[p].pc) ==> s.locked && s.pid == p)
    && (forall p :: 0 <= p < |s.procs| && (s.procs[p].pc.SlpAcq? || s.procs[p].pc.SlpRel?) ==> s.locked)
    && (forall p ::
          0 <= p < |s.procs|
          && (s.procs[p].pc.AcqSet? || s.procs[p].pc.RelWake? || s.procs[p].pc.RelScan? || s.procs[p].pc.RelRel?) ==>
            !s.locked)
  }

  /** The process whose CPU holds the inner spinlock will still wake p. */
  predicate WakerFor(s: State, p: nat)
  {
    && s.inner.By? && s.inner.cpu < |s.cpus| && s.cpus[s.inner.cpu].Runs? && s.cpus[s.inner.cpu].p < |s.procs|
    && var q := s.procs[s.cpus[s.inner.cpu].p].pc;
    (q.RelWake? || (q.RelScan? && q.i <= p))
  }

  ghost predicate NoLostWakeup(s: State)
  {
    !s.locked ==> forall p :: 0 <= p < |s.procs| && Committed(s.procs[p]) ==> WakerFor(s, p)
  }

  ghost predicate Inv(s: State)
  {
    OnCpus(s) && States(s) && InnerHeld(s) && PtableHeld(s) && Exclusive(s) && NoLostWakeup(s)
  }

  /** The spinlocks and the CPUs, without the sleep lock. */
  ghost predicate Base(s: State)
  {
    OnCpus(s) && States(s) && InnerHeld(s) && PtableHeld(s)
  }

  lemma InitInv(s: State)
    requires Init(s)
    ensures Inv(s)
  {
  }

  lemma CallBase(s: State, s': State, c: nat, p: nat)
    requires Base(s) && Call(s, s', c, p)
    ensures Base(s')
  {
  }

  lemma CallLock(s: State, s': State, c: nat, p: nat)
    requires Inv(s) && Call(s, s', c, p)
    ensures Exclusive(s') && NoLostWakeup(s')
  {
  }

  lemma PauseBase(s: State, s': State, c: nat, p: nat)
    requires Base(s) && Pause(s, s', c, p)
    ensures Base(s')
  {
  }

  lemma PauseLock(s: State, s': State, c: nat, p: nat)
    requires Inv(s) && Pause(s, s', c, p)
    ensures Exclusive(s') && NoLostWakeup(s')
  {
  }

  lemma TakeInnerBase(s: State, s': State, c: nat, p: nat)
    requires Base(s) && TakeInner(s, s', c, p)
    ensures Base(s')
  {
  }

  lemma TakeInnerLock(s: State, s': State, c: nat, p: nat)
    requires Inv(s) && TakeInner(s, s', c, p)
    ensures Exclusive(s') && NoLostWakeup(s')
  {
  }

  lemma DropInnerBase(s: State, s': State, c: nat, p: nat)
    requires Base(s) && DropInner(s, s', c, p)
    ensures Base(s')
  {
  }

  lemma DropInnerLock(s: State, s': State, c: nat, p: nat)
    requires Inv(s) && DropInner(s, s', c, p)
    ensures Exclusive(s') && NoLostWakeup(s')
  {
  }

  lemma TestBase(s: State, s': State, c: nat, p: nat)
    requires Base(s) && Test(s, s', c, p)
    ensures Base(s')
  {
  }

  lemma TestLock(s: State, s': State, c: nat, p: nat)
    requires Inv(s) && Test(s, s', c, p)
    ensures Exclusive(s') && NoLostWakeup(s')
  {
  }

  lemma SetBase(s: State, s': State, c: nat, p: nat)
    requires Base(s) && Set(s, s', c, p)
    ensures Base(s')
  {
  }

  lemma SetLock(s: State, s': State, c: nat, p: nat)
    requires Inv(s) && Set(s, s', c, p)
    ensures Exclusive(s') && NoLostWakeup(s')
  {
  }

  lemma ClearBase(s: State, s': State, c: nat, p: nat)
    requires Base(s) && Clear(s, s', c, p)
    ensures Base(s')
  {
  }

  lemma ClearLock(s: State, s': State, c: nat, p: nat)
    requires Inv(s) && Clear(s, s', c, p)
    ensures Exclusive(s') && NoLostWakeup(s')
  {
  }

  lemma TakePtableBase(s: State, s': State, c: nat, p: nat)
    requires Base(s) && TakePtable(s, s', c, p)
    ensures Base(s')
  {
  }

  lemma TakePtableLock(s: State, s': State, c: nat, p: nat)
    requires Inv(s) && TakePtable(s, s', c, p)
    ensures Exclusive(s') && NoLostWakeup(s')
  {
  }

  lemma DropPtableBase(s: State, s': State, c: nat, p: nat)
    requires Base(s) && DropPtable(s, s', c, p)
    ensures Base(s')
  {
  }

  lemma DropPtableLock(s: State, s': State, c: nat, p: nat)
    requires Inv(s) && DropPtable(s, s', c, p)
    ensures Exclusive(s') && NoLostWakeup(s')
  {
  }

  lemma MarkBase(s: State, s': State, c: nat, p: nat)
    requires Base(s) && Mark(s, s', c, p)
    ensures Base(s')
  {
  }

  lemma MarkLock(s: State, s': State, c: nat, p: nat)
    requires Inv(s) && Mark(s, s', c, p)
    ensures Exclusive(s') && NoLostWakeup(s')
  {
  }

  lemma SwitchBase(s: State, s': State, c: nat, p: nat)
    requires Base(s) && Switch(s, s', c, p)
    ensures Base(s')
  {
  }

  lemma SwitchLock(s: State, s': State, c: nat, p: nat)
    requires Inv(s) && Switch(s, s', c, p)
    ensures Exclusive(s') && NoLostWakeup(s')
  {
  }

  lemma WakeBase(s: State, s': State, c: nat, p: nat)
    requires Base(s) && Wake(s, s', c, p)
    ensures Base(s')
  {
  }

  lemma WakeLock(s: State, s': State, c: nat, p: nat)
    requires Inv(s) && Wake(s, s', c, p)
    ensures Exclusive(s') && NoLostWakeup(s')
  {
  }

  lemma WakeOtherInv(s: State, s': State, q: nat)
    requires Inv(s) && WakeOther(s, s', q)
    ensures Inv(s')
  {
  }

  lemma BeginBase(s: State, s': State, c: nat)
    requires Base(s) && Begin(s, s', c)
    ensures Base(s')
  {
  }

  lemma BeginLock(s: State, s': State, c: nat)
    requires Inv(s) && Begin(s, s', c)
    ensures Exclusive(s') && NoLostWakeup(s')
  {
  }

  lemma SkipBase(s: State, s': State, c: nat)
    requires Base(s) && Skip(s, s', c)
    ensures Base(s')
  {
  }

  lemma SkipLock(s: State, s': State, c: nat)
    requires Inv(s) && Skip(s, s', c)
    ensures Exclusive(s') && NoLostWakeup(s')
  {
  }

  lemma EndBase(s: State, s': State, c: nat)
    requires Base(s) && End(s, s', c)
    ensures Base(s')
  {
  }

  lemma EndLock(s: State, s': State, c: nat)
    requires Inv(s) && End(s, s', c)
    ensures Exclusive(s') && NoLostWakeup(s')
  {
  }

  lemma DispatchBase(s: State, s': State, c: nat)
    requires Base(s) && Dispatch(s, s', c)
    ensures Base(s')
  {
  }

  lemma DispatchLock(s: State, s': State, c: nat)
    requires Inv(s) && Dispatch(s, s', c)
    ensures Exclusive(s') && NoLostWakeup(s')
  {
  }

  lemma ProcessInv(s: State, s': State, c: nat, p: nat)
    requires Inv(s) && ProcessStep(s, s', c, p)
    ensures Inv(s')
  {
    hide Base, Exclusive, NoLostWakeup, Call, Pause, TakeInner, DropInner, Test, Set, Clear, TakePtable, DropPtable,
         Mark, Switch, Wake;
    InvIsBase(s);
    if Call(s, s', c, p) {
      CallBase(s, s', c, p);
      CallLock(s, s', c, p);
    } else if Pause(s, s', c, p) {
      PauseBase(s, s', c, p);
      PauseLock(s, s', c, p);
    } else if TakeInner(s, s', c, p) {
      TakeInnerBase(s, s', c, p);
      TakeInnerLock(s, s', c, p);
    } else if DropInner(s, s', c, p) {
      DropInnerBase(s, s', c, p);
      DropInnerLock(s, s', c, p);
    } else if Test(s, s', c, p) {
      TestBase(s, s', c, p);
      TestLock(s, s', c, p);
    } else if Set(s, s', c, p) {
      SetBase(s, s', c, p);
      SetLock(s, s', c, p);
    } else if Clear(s, s', c, p) {
      ClearBase(s, s', c, p);
      ClearLock(s, s', c, p);
    } else if TakePtable(s, s', c, p) {
      TakePtableBase(s, s', c, p);
      TakePtableLock(s, s', c, p);
    } else if DropPtable(s, s', c, p) {
      DropPtableBase(s, s', c, p);
      DropPtableLock(s, s', c, p);
    } else if Mark(s, s', c, p) {
      MarkBase(s, s', c, p);
      MarkLock(s, s', c, p);
    } else if Switch(s, s', c, p) {
      SwitchBase(s, s', c, p);
      SwitchLock(s, s', c, p);
    } else {
      WakeBase(s, s', c, p);
      WakeLock(s, s', c, p);
    }
  }

  lemma ScheduleInv(s: State, s': State, c: nat)
    requires Inv(s) && Schedule(s, s', c)
    ensures Inv(s')
  {
    hide Base, Exclusive, NoLostWakeup, Begin, Skip, End, Dispatch;
    InvIsBase(s);
    if Begin(s, s', c) {
      BeginBase(s, s', c);
      BeginLock(s, s', c);
    } else if Skip(s, s', c) {
      SkipBase(s, s', c);
      SkipLock(s, s', c);
    } else if End(s, s', c) {
      EndBase(s, s', c);
      EndLock(s, s', c);
    } else {
      DispatchBase(s, s', c);
      DispatchLock(s, s', c);
    }
  }

  lemma InvIsBase(s: State)
    ensures Inv(s) <==> Base(s) && Exclusive(s) && NoLostWakeup(s)
  {
  }

  /** Every state of every run satisfies the invariant. */
  lemma {:induction false} RunInv(r: seq<State>)
    requires Run(r)
    ensures Inv(Last(r))
  {
    hide Inv, Init, Schedule, ProcessStep, WakeOther;
    if |r| == 1 {
      InitInv(r[0]);
    } else {
      var before := r[..|r| - 1];
      RunInv(before);
      var s, s' := r[|r| - 2], Last(r);
      assert before[|before| - 1] == s && Next(s, s');
      if c, p :| ProcessStep(s, s', c, p) {
        ProcessInv(s, s', c, p);
      } else if c :| Schedule(s, s', c) {
        ScheduleInv(s, s', c);
      } else {
        var q :| WakeOther(s, s', q);
        WakeOtherInv(s, s', q);
      }
    }
  }

  // ---------- What the lock promises ----------

  /** At most one process holds the sleep lock. */
  lemma MutualExclusion(r: seq<State>, p: nat, q: nat)
    requires Run(r) && p < |Last(r).procs| && q < |Last(r).procs|
    requires Holds(Last(r).procs[p].pc) && Holds(Last(r).procs[q].pc)
    ensures p == q
  {
    hide Run;
    RunInv(r);
  }

  /** holdingsleep answers true exactly for the process that holds the lock. */
  lemma HoldingSleepExact(r: seq<State>, p: nat)
    requires Run(r) && p < |Last(r).procs|
    ensures Last(r).locked && Last(r).pid == p <==> Holds(Last(r).procs[p].pc)
  {
    hide Run;
    RunInv(r);
  }

  /** No wakeup is lost: when a process sleeps on a free lock, or is committed to, the inner spinlock is held by a
      process in releasesleep whose wakeup has not passed the sleeper yet. */
  lemma NoProcessLeftAsleep(r: seq<State>, p: nat)
    requires Run(r) && p < |Last(r).procs| && Committed(Last(r).procs[p]) && !Last(r).locked
    ensures WakerFor(Last(r), p)
  {
    hide Run;
    RunInv(r);
  }

  /** So with the lock free and the inner spinlock free too, nobody sleeps on it. */
  lemma NobodyAsleepOnFreeLock(r: seq<State>, p: nat)
    requires Run(r) && p < |Last(r).procs| && !Last(r).locked && Last(r).inner.Free?
    ensures !Committed(Last(r).procs[p])
  {
    hide Run;
    RunInv(r);
  }

  /** The panics of acquire, release and sched at the next step of process p on CPU c. */
  predicate Panics(s: State, c: nat, p: nat)
  {
    RunsOn(s, c, p) &&
    var pc := s.procs[p].pc;
    || ((pc.AcqStart? || pc.SlpReacq? || pc.RelStart?) && s.inner == By(c))
    || ((pc.AcqRel? || pc.SlpRel? || pc.RelRel?) && s.inner != By(c))
    || ((pc.SlpAcq? || pc.RelWake? || pc.PauseAcq?) && s.ptable == By(c))
    || ((pc.SlpBack? || pc.PauseBack? || pc.RelScan?) && s.ptable != By(c))
    || ((pc.SlpSwitch? || pc.PauseSwitch?) && (s.ptable != By(c) || s.procs[p].st.Running?))
  }

  lemma SafeHere(s: State, c: nat, p: nat)
    requires Base(s) && RunsOn(s, c, p)
    ensures HasInner(s.procs[p].pc) <==> s.inner == By(c)
    ensures HasPtable(s.procs[p].pc) <==> s.ptable == By(c)
    ensures Agrees(s.procs[p])
  {
  }

  lemma NeverPanics(r: seq<State>, c: nat, p: nat)
    requires Run(r)
    ensures !Panics(Last(r), c, p)
  {
    var s := Last(r);
    hide Run, Inv, Base;
    RunInv(r);
    InvIsBase(s);
    if RunsOn(s, c, p) {
      SafeHere(s, c, p);
    }
  }
}
