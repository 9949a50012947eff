/** The process table: fork, exit, wait, sleep, wakeup, yield and the schedulers as interleaved steps of any number of
    processes on any number of CPUs. */
module ProcTable {
  import opened Cpus

  datatype ProcState = Unused | Embryo | Sleeping | Runnable | Running | Zombie

  /** A parent pointer. */
  datatype Ref = Null | To(slot: nat)

  /** Where a process is. */
  datatype Pc =
    | Nowhere                        // no context yet, or none any more
    | Fresh                          // set up by fork, never dispatched
    | FreshBack                      // forkret: before release(&ptable.lock)
    | User                           // outside the code below
    | AllocAcq                       // proc_alloc: before acquire(&ptable.lock)
    | AllocScan                      // looking for an unused slot
    | Stuck                          // proc_alloc has returned after kalloc failed, the lock still held
    | ForkCopy(j: nat)               // fork: before copyuvm, building slot j
    | ForkLink(j: nat)               // before np->parent = thisproc()
    | ForkRun(j: nat)                // before np->state = RUNNABLE
    | ExitAcq                        // exit: before acquire(&ptable.lock)
    | ExitWake                       // before wakeup_withlock(p->parent)
    | ExitScan(i: nat)               // handing child i over to initproc
    | ExitSwitch                     // a zombie, before swtch
    | Dead                           // switched out for good
    | WaitAcq                        // wait: before acquire(&ptable.lock)
    | WaitScan(i: nat, kids: bool)   // looking at slot i
    | WaitRel                        // before release(&ptable.lock)
    | PauseAcq                       // yield or sleep: before acquire(&ptable.lock)
    | PauseMark                      // before the state is set
    | Switch(waits: bool)            // before swtch; waits says whether it comes from wait
    | Off(waits: bool)               // switched out
    | PauseBack                      // back from sched, before release(&ptable.lock)
    | WakeAcq                        // wakeup: before acquire(&ptable.lock)
    | WakeScan                       // waking sleepers

  datatype Slot = Slot(st: ProcState, pid: nat, parent: Ref, kstack: bool, pc: Pc)

  datatype State = State(slots: seq<Slot>, cpus: seq<Cpu>, ptable: Lock, nextpid: nat, init: nat)

  predicate HasLock(pc: Pc)
  {
    || pc.FreshBack? || pc.AllocScan? || pc.Stuck? || pc.ExitWake? || pc.ExitScan? || pc.ExitSwitch? || pc.WaitScan?
      || pc.WaitRel?
    || pc.PauseMark? || pc.Switch? || pc.PauseBack? || pc.WakeScan?
  }

  /** Not executing on any CPU. */
  predicate Away(pc: Pc)
  {
    pc.Nowhere? || pc.Fresh? || pc.Dead? || pc.Off?
  }

  predicate Alive(st: ProcState)
  {
    st.Sleeping? || st.Runnable? || st.Running?
  }

  // ---------- Steps ----------

  function At(s: State, p: nat, pc: Pc): State
    requires p < |s.slots|
  {
    s.(slots := s.slots[p := s.slots[p].(pc := pc)])
  }

  predicate RunsOn(s: State, c: nat, p: nat)
  {
    Executes(s.cpus, |s.slots|, c, p)
  }

  /** Process p on CPU c enters fork, exit, wait, yield, sleep or wakeup. initproc does not exit: that is a panic. */
  predicate Enter(s: State, s': State, c: nat, p: nat)
  {
    RunsOn(s, c, p) && s.slots[p].pc.User? && p < |s'.slots| &&
    var pc := s'.slots[p].pc;
    && (pc.AllocAcq? || pc.ExitAcq? || pc.WaitAcq? || pc.PauseAcq? || pc.WakeAcq?) && (pc.ExitAcq? ==> p != s.init)
    && s' == At(s, p, pc)
  }

  function AfterTake(pc: Pc): Pc
  {
    if pc.AllocAcq? then AllocScan else if pc.ExitAcq? then ExitWake else if pc.WaitAcq? then WaitScan(0, false)
    else if pc.PauseAcq? then PauseMark else WakeScan
  }

  /** acquire(&ptable.lock). */
  predicate Take(s: State, s': State, c: nat, p: nat)
  {
    RunsOn(s, c, p) && s.ptable.Free? &&
    var pc := s.slots[p].pc;
    (pc.AllocAcq? || pc.ExitAcq? || pc.WaitAcq? || pc.PauseAcq? || pc.WakeAcq?)
      && s' == At(s, p, AfterTake(pc)).(ptable := By(c))
  }

  /** release(&ptable.lock); from proc_alloc when no slot is unused. */
  predicate Drop(s: State, s': State, c: nat, p: nat)
  {
    RunsOn(s, c, p) &&
    var pc := s.slots[p].pc;
    && (pc.FreshBack? || pc.WaitRel? || pc.PauseBack? || pc.WakeScan?
        || (pc.AllocScan? && forall k :: 0 <= k < |s.slots| ==> !s.slots[k].st.Unused?))
    && s' == At(s, p, User).(ptable := Free)
  }

  /** j is the first unused slot. */
  predicate FirstUnused(s: State, j: nat)
  {
    j < |s.slots| && s.slots[j].st.Unused? && forall k :: 0 <= k < j ==> !s.slots[k].st.Unused?
  }

  /** proc_alloc takes its first unused slot. */
  predicate Alloc(s: State, s': State, c: nat, p: nat)
  {
    RunsOn(s, c, p) && s.slots[p].pc.AllocScan? && p < |s'.slots| && s'.slots[p].pc.ForkCopy? &&
    var j := s'.slots[p].pc.j;
    && FirstUnused(s, j)
    && s' == s.(slots := s.slots[p := s.slots[p].(pc := ForkCopy(j))]
                                [j := s.slots[j].(st := Embryo, pid := s.nextpid, kstack := true)],
                nextpid := s.nextpid + 1, ptable := Free)
  }

  /** Without memory for a stack it returns with the lock held. */
  predicate AllocFail(s: State, s': State, c: nat, p: nat)
  {
    && RunsOn(s, c, p) && s.slots[p].pc.AllocScan? && (exists j :: 0 <= j < |s.slots| && FirstUnused(s, j))
    && s' == At(s, p, Stuck)
  }

  /** fork: copyuvm succeeds. */
  predicate Copy(s: State, s': State, c: nat, p: nat)
  {
    RunsOn(s, c, p) && s.slots[p].pc.ForkCopy? && s' == At(s, p, ForkLink(s.slots[p].pc.j))
  }

  /** It fails, and the slot is given up. */
  predicate CopyFail(s: State, s': State, c: nat, p: nat)
  {
    RunsOn(s, c, p) &&
    var pc := s.slots[p].pc;
    && pc.ForkCopy? && pc.j < |s.slots|
    && s' == s.(slots := s.slots[p := s.slots[p].(pc := User)]
                                [pc.j := s.slots[pc.j].(st := Unused, kstack := false, pc := Nowhere)])
  }

  /** np->parent = thisproc(). */
  predicate Link(s: State, s': State, c: nat, p: nat)
  {
    RunsOn(s, c, p) &&
    var pc := s.slots[p].pc;
    && pc.ForkLink? && pc.j < |s.slots|
    && s' == s.(slots := s.slots[p := s.slots[p].(pc := ForkRun(pc.j))][pc.j := s.slots[pc.j].(parent := To(p))])
  }

  /** np->state = RUNNABLE. */
  predicate Launch(s: State, s': State, c: nat, p: nat)
  {
    RunsOn(s, c, p) &&
    var pc := s.slots[p].pc;
    && pc.ForkRun? && pc.j < |s.slots|
    && s' == s.(slots := s.slots[p := s.slots[p].(pc := User)][pc.j := s.slots[pc.j].(st := Runnable, pc := Fresh)])
  }

  /** Asleep in wait, or about to be switched out for it: its channel is the process itself. */
  predicate Dozes(x: Slot)
  {
    x.st.Sleeping? && (x.pc == Switch(true) || x.pc == Off(true))
  }

  /** wakeup_withlock on the process that this points to. */
  function Woken(slots: seq<Slot>, r: Ref): (w: seq<Slot>)
    ensures |w| == |slots|
  {
    if r.To? && r.slot < |slots| && Dozes(slots[r.slot]) then slots[r.slot := slots[r.slot].(st := Runnable)] else slots
  }

  /** exit wakes its parent. */
  predicate WakeParent(s: State, s': State, c: nat, p: nat)
  {
    && RunsOn(s, c, p) && s.slots[p].pc.ExitWake?
    && s' == s.(slots := Woken(s.slots[p := s.slots[p].(pc := ExitScan(0))], s.slots[p].parent))
  }

  /** exit has looked at slot i, and handed it over to initproc if it is a child. */
  function HandedOver(s: State, p: nat, i: nat): State
    requires p < |s.slots| && i < |s.slots|
  {
    var slots := s.slots[p := s.slots[p].(pc := ExitScan(i + 1))];
    s.(slots := if slots[i].parent == To(p) then slots[i := slots[i].(parent := To(s.init))] else slots)
  }

  /** exit hands one child over to initproc, and wakes that if the child is a zombie. */
  predicate Reparent(s: State, s': State, c: nat, p: nat)
  {
    RunsOn(s, c, p) &&
    var pc := s.slots[p].pc;
    && pc.ExitScan? && pc.i < |s.slots|
    && var t := HandedOver(s, p, pc.i);
       s' == t.(slots := if s.slots[pc.i].parent == To(p) && s.slots[pc.i].st.Zombie?
                         then Woken(t.slots, To(s.init)) else t.slots)
  }

  /** p->state = ZOMBIE. */
  predicate Die(s: State, s': State, c: nat, p: nat)
  {
    && RunsOn(s, c, p) && s.slots[p].pc.ExitScan? && s.slots[p].pc.i >= |s.slots|
    && s' == s.(slots := s.slots[p := s.slots[p].(st := Zombie, pc := ExitSwitch)])
  }

  /** wait passes over a slot that is no zombie child. */
  predicate Pass(s: State, s': State, c: nat, p: nat)
  {
    RunsOn(s, c, p) &&
    var pc := s.slots[p].pc;
    && pc.WaitScan? && pc.i < |s.slots| && !(s.slots[pc.i].parent == To(p) && s.slots[pc.i].st.Zombie?)
    && s' == At(s, p, WaitScan(pc.i + 1, pc.kids || s.slots[pc.i].parent == To(p)))
  }

  /** wait frees a zombie child. */
  predicate Reap(s: State, s': State, c: nat, p: nat)
  {
    RunsOn(s, c, p) &&
    var pc := s.slots[p].pc;
    && pc.WaitScan? && pc.i < |s.slots| && s.slots[pc.i].parent == To(p) && s.slots[pc.i].st.Zombie?
    && s' == s.(slots := s.slots[p := s.slots[p].(pc := WaitRel)][pc.i := Slot(Unused, 0, Null, false, Nowhere)])
  }

  /** wait ends without a zombie: it returns if it has no children, or has been killed. */
  predicate WaitEnd(s: State, s': State, c: nat, p: nat)
  {
    RunsOn(s, c, p) && s.slots[p].pc.WaitScan? && s.slots[p].pc.i >= |s.slots| && s' == At(s, p, WaitRel)
  }

  /** With children it sleeps, keeping ptable.lock. */
  predicate WaitSleep(s: State, s': State, c: nat, p: nat)
  {
    && RunsOn(s, c, p) && s.slots[p].pc.WaitScan? && s.slots[p].pc.i >= |s.slots| && s.slots[p].pc.kids
    && s' == s.(slots := s.slots[p := s.slots[p].(st := Sleeping, pc := Switch(true))])
  }

  /** yield or sleep sets the state. */
  predicate Mark(s: State, s': State, c: nat, p: nat)
  {
    RunsOn(s, c, p) && s.slots[p].pc.PauseMark? && p < |s'.slots| &&
    var st := s'.slots[p].st;
    && (st.Runnable? || st.Sleeping?)
    && s' == s.(slots := s.slots[p := s.slots[p].(st := st, pc := Switch(false))])
  }

  /** swtch to the scheduler, which clears c->proc and goes on with the next slot, still holding ptable.lock. */
  predicate Leave(s: State, s': State, c: nat, p: nat)
  {
    RunsOn(s, c, p) &&
    var pc := s.slots[p].pc;
    && (pc.Switch? || pc.ExitSwitch?)
    && s' == At(s, p, if pc.Switch? then Off(pc.waits) else Dead).(cpus := s.cpus[c := Scan(p + 1)])
  }

  /** wakeup makes a sleeping process runnable. */
  predicate WakeOne(s: State, s': State, c: nat, p: nat)
  {
    && RunsOn(s, c, p) && s.slots[p].pc.WakeScan?
    && exists q :: 0 <= q < |s.slots| && s.slots[q].st.Sleeping?
        && s' == s.(slots := s.slots[q := s.slots[q].(st := Runnable)])
  }

  /** The scheduler's acquire(&ptable.lock). */
  predicate Begin(s: State, s': State, c: nat)
  {
    c < |s.cpus| && s.cpus[c].Want? && s.ptable.Free? && s' == s.(ptable := By(c), cpus := s.cpus[c := Scan(0)])
  }

  predicate Skip(s: State, s': State, c: nat)
  {
    && c < |s.cpus| && s.cpus[c].Scan? && s.cpus[c].i < |s.slots| && !s.slots[s.cpus[c].i].st.Runnable?
    && s' == s.(cpus := s.cpus[c := Scan(s.cpus[c].i + 1)])
  }

  predicate End(s: State, s': State, c: nat)
  {
    && c < |s.cpus| && s.cpus[c].Scan? && s.cpus[c].i >= |s.slots|
    && s' == s.(ptable := Free, cpus := s.cpus[c := Want])
  }

  function AfterDispatch(pc: Pc): Pc
  {
    if pc.Fresh? then FreshBack else if pc == Off(true) then WaitScan(0, false) else if pc == Off(false) then PauseBack
        else pc
  }

  /** c->proc = p; p->state = RUNNING; swtch. */
  predicate Dispatch(s: State, s': State, c: nat)
  {
    && c < |s.cpus| && s.cpus[c].Scan? && s.cpus[c].i < |s.slots| && s.slots[s.cpus[c].i].st.Runnable?
    && var i := s.cpus[c].i;
       s' == s.(slots := s.slots[i := s.slots[i].(st := Running, pc := AfterDispatch(s.slots[i].pc))],
                cpus := s.cpus[c := Runs(i)])
  }

  predicate ProcessStep(s: State, s': State, c: nat, p: nat)
  {
    || Enter(s, s', c, p) || Take(s, s', c, p) || Drop(s, s', c, p) || Alloc(s, s', c, p) || AllocFail(s, s', c, p)
      || Copy(s, s', c, p)
    || CopyFail(s, s', c, p) || Link(s, s', c, p) || Launch(s, s', c, p)
    || WakeParent(s, s', c, p) || Reparent(s, s', c, p) || Die(s, s', c, p) || Pass(s, s', c, p)
    || Reap(s, s', c, p) || WaitEnd(s, s', c, p) || WaitSleep(s, s', c, p) || Mark(s, s', c, p) || Leave(s, s', c, p)
      || WakeOne(s, s', c, p)
  }

  predicate CpuStep(s: State, s': State, c: nat)
  {
    Begin(s, s', c) || Skip(s, s', c) || End(s, s', c) || Dispatch(s, s', c)
  }

  ghost predicate Next(s: State, s': State)
  {
    (exists c, p :: ProcessStep(s, s', c, p)) || (exists c :: CpuStep(s, s', c))
  }

  /** The table as main leaves it: some processes without a parent, initproc among them, and all other slots unused. */
  ghost predicate Init(s: State)
  {
    && s.init + 1 == s.nextpid - 1 && s.init < |s.slots| && s.ptable.Free?
    && (forall p :: 0 <= p < |s.slots| ==>
          s.slots[p] == if p <= s.init then Slot(Runnable, p + 1, Null, true, Fresh)
              else Slot(Unused, 0, Null, false, Nowhere))
    && (forall c :: 0 <= c < |s.cpus| ==> s.cpus[c] == Want)
  }

  ghost predicate Run(r: seq<State>)
  {
    r != [] && Init(r[0]) && forall k :: 0 <= k < |r| - 1 ==> Next(r[k], r[k + 1])
  }

  function Last(r: seq<State>): State
    requires r != []
  {
    r[|r| - 1]
  }

  // ---------- Invariants ----------

  ghost predicate OnSome(cpus: seq<Cpu>, p: nat)
  {
    exists c :: 0 <= c < |cpus| && cpus[c] == Runs(p)
  }

  /** A process executes on exactly one CPU unless it is away; nothing else is on a CPU. */
  ghost predicate OnCpus(s: State)
  {
    && (forall c :: 0 <= c < |s.cpus| && s.cpus[c].Runs? ==> s.cpus[c].p < |s.slots| && !Away(s.slots[s.cpus[c].p].pc))
    && (forall c, d :: 0 <= c < d < |s.cpus| && s.cpus[c].Runs? ==> s.cpus[c] != s.cpus[d])
    && (forall p :: 0 <= p < |s.slots| && !Away(s.slots[p].pc) ==> OnSome(s.cpus, p))
  }

  /** The fields of a slot agree with where its process is. */
  predicate Agrees(x: Slot)
  {
    && (x.st.Running? <==> !(Away(x.pc) || x.pc.Switch? || x.pc.ExitSwitch?))
    && (x.st.Unused? || x.st.Embryo? <==> x.pc.Nowhere?)
    && (x.st.Zombie? <==> x.pc.ExitSwitch? || x.pc.Dead?)
    && (x.st.Unused? ==> x.parent.Null?) && (x.kstack <==> !x.st.Unused?)
  }

  ghost predicate Slots(s: State)
  {
    forall p :: 0 <= p < |s.slots| ==> Agrees(s.slots[p])
  }

  ghost predicate LockHeld(s: State)
  {
    && (s.ptable.By? ==> s.ptable.cpu < |s.cpus| && match s.cpus[s.ptable.cpu]
          case Want => false
          case Scan(i) => true
          case Runs(p) => p < |s.slots| && HasLock(s.slots[p].pc))
    && (forall c :: 0 <= c < |s.cpus| && s.cpus[c].Scan? ==> s.ptable == By(c))
    && (forall p :: 0 <= p < |s.slots| && HasLock(s.slots[p].pc) ==>
          s.ptable.By? && s.ptable.cpu < |s.cpus| && s.cpus[s.ptable.cpu] == Runs(p))
  }

  /** The slot that a forking process builds. */
  function Target(pc: Pc): int
  {
    if pc.ForkCopy? || pc.ForkLink? || pc.ForkRun? then pc.j else -1
  }

  /** Each slot under construction has one builder, and its parent pointer is set in the last phase only. */
  ghost predicate Building(s: State)
  {
    && (forall p {:trigger Target(s.slots[p].pc)} :: 0 <= p < |s.slots| && Target(s.slots[p].pc) >= 0 ==>
          && Target(s.slots[p].pc) < |s.slots| && s.slots[Target(s.slots[p].pc)].st.Embryo?
          && s.slots[Target(s.slots[p].pc)].parent == if s.slots[p].pc.ForkRun? then To(p) else Null)
    && (forall p, q {:trigger Target(s.slots[p].pc), Target(s.slots[q].pc)} ::
        0 <= p < q < |s.slots| && Target(s.slots[p].pc) >= 0 ==>
          Target(s.slots[p].pc) != Target(s.slots[q].pc))
  }

  /** A parent is alive, and an exiting one has no children before the point its scan has come to. */
  ghost predicate Parents(s: State)
  {
    forall q {:trigger s.slots[q].parent} :: 0 <= q < |s.slots| && s.slots[q].parent.To? ==>
      var r := s.slots[q].parent.slot;
      r < |s.slots| && Alive(s.slots[r].st) && (s.slots[r].pc.ExitScan? ==> q >= s.slots[r].pc.i)
  }

  /** initproc is alive and stays so. */
  predicate InitAlive(s: State)
  {
    && s.init < |s.slots| && Alive(s.slots[s.init].st)
    && !s.slots[s.init].pc.ExitAcq? && !s.slots[s.init].pc.ExitWake? && !s.slots[s.init].pc.ExitScan?
      && !s.slots[s.init].pc.ExitSwitch?
  }

  ghost predicate Pids(s: State)
  {
    && (forall p :: 0 <= p < |s.slots| && !s.slots[p].st.Unused? ==> 0 < s.slots[p].pid < s.nextpid)
    && (forall p, q :: 0 <= p < q < |s.slots| && !s.slots[p].st.Unused? && !s.slots[q].st.Unused? ==>
          s.slots[p].pid != s.slots[q].pid)
    && 0 < s.nextpid
  }

  ghost predicate Base(s: State)
  {
    OnCpus(s) && Slots(s) && LockHeld(s)
  }

  ghost predicate Tree(s: State)
  {
    Building(s) && Parents(s) && InitAlive(s) && Pids(s)
  }

  lemma InitBase(s: State)
    requires Init(s)
    ensures Base(s)
  {
  }

  lemma InitTree(s: State)
    requires Init(s)
    ensures Tree(s)
  {
  }

  /** A slot under construction is another than its builder's, and nobody else's. */
  lemma BuilderFacts(s: State, p: nat)
    requires Slots(s) && Building(s) && p < |s.slots| && Target(s.slots[p].pc) >= 0
    ensures var j := Target(s.slots[p].pc);
      && j < |s.slots| && s.slots[j].st.Embryo? && j != p && s.slots[j].pc.Nowhere?
      && s.slots[j].parent == (if s.slots[p].pc.ForkRun? then To(p) else Null)
  {
  }

  /** A process that builds no more leaves the other builders undisturbed. */
  lemma BuilderDone(s: State, s': State, p: nat)
    requires Building(s) && p < |s.slots| == |s'.slots| && Target(s.slots[p].pc) >= 0 && Target(s'.slots[p].pc) < 0
    requires forall q :: 0 <= q < |s.slots| && q != p ==>
               Target(s'.slots[q].pc) == Target(s.slots[q].pc) && (s'.slots[q].pc.ForkRun? <==> s.slots[q].pc.ForkRun?)
    requires forall j :: 0 <= j < |s.slots| && j != Target(s.slots[p].pc) ==>
               s'.slots[j].parent == s.slots[j].parent && (s'.slots[j].st.Embryo? <==> s.slots[j].st.Embryo?)
    ensures Building(s')
  {
  }

  /** Steps that leave the CPUs and the lock alone. */
  lemma BaseFrame(s: State, s': State)
    requires Base(s) && |s'.slots| == |s.slots| && s'.cpus == s.cpus && s'.ptable == s.ptable
    requires forall p :: 0 <= p < |s.slots| ==>
               && (Away(s'.slots[p].pc) <==> Away(s.slots[p].pc))
                   && (HasLock(s'.slots[p].pc) <==> HasLock(s.slots[p].pc))
               && Agrees(s'.slots[p])
    ensures Base(s')
  {
  }

  /** What most steps do to a slot: they move its process along. */
  predicate Moves(x: Slot, y: Slot)
  {
    && y.parent == x.parent && y.pid == x.pid && (y.st.Unused? <==> x.st.Unused?) && (y.st.Embryo? <==> x.st.Embryo?)
    && (Alive(y.st) <==> Alive(x.st)) && Target(y.pc) == Target(x.pc) && (y.pc.ForkRun? <==> x.pc.ForkRun?)
    && (y.pc.ExitScan? ==> y.pc == x.pc || y.pc.i == 0)
  }

  lemma TreeFrame(s: State, s': State)
    requires Tree(s) && |s'.slots| == |s.slots| && s'.init == s.init && s'.nextpid == s.nextpid && InitAlive(s')
    requires forall p :: 0 <= p < |s.slots| ==> Moves(s.slots[p], s'.slots[p])
    ensures Tree(s')
  {
    assert Building(s') by {
      hide Parents, Pids;
    }
    assert Pids(s') by {
      hide Parents, Building;
    }
  }

  /** Where the other processes run does not change when one CPU moves on. */
  lemma MoveOn(cpus: seq<Cpu>, c: nat, x: Cpu)
    requires c < |cpus|
    ensures forall p :: 0 <= p && OnSome(cpus, p) && cpus[c] != Runs(p) ==> OnSome(cpus[c := x], p)
    ensures x.Runs? ==> OnSome(cpus[c := x], x.p)
  {
    assert cpus[c := x][c] == x;
    forall p | 0 <= p && OnSome(cpus, p) && cpus[c] != Runs(p)
      ensures OnSome(cpus[c := x], p)
    {
      var d :| 0 <= d < |cpus| && cpus[d] == Runs(p);
      assert cpus[c := x][d] == Runs(p);
    }
  }

  lemma EnterBase(s: State, s': State, c: nat, p: nat)
    requires Base(s) && Tree(s) && Enter(s, s', c, p)
    ensures Base(s')
  {
    hide Tree, OnCpus, LockHeld;
    BaseFrame(s, s');
  }

  lemma EnterTree(s: State, s': State, c: nat, p: nat)
    requires Base(s) && Tree(s) && Enter(s, s', c, p)
    ensures Tree(s')
  {
    hide OnCpus, LockHeld, Building, Parents, Pids;
    TreeFrame(s, s');
  }

  lemma TakeBase(s: State, s': State, c: nat, p: nat)
    requires Base(s) && Tree(s) && Take(s, s', c, p)
    ensures Base(s')
  {
    hide Tree;
  }

  lemma TakeTree(s: State, s': State, c: nat, p: nat)
    requires Base(s) && Tree(s) && Take(s, s', c, p)
    ensures Tree(s')
  {
    hide OnCpus, LockHeld, Building, Parents, Pids;
    TreeFrame(s, s');
  }

  lemma DropBase(s: State, s': State, c: nat, p: nat)
    requires Base(s) && Tree(s) && Drop(s, s', c, p)
    ensures Base(s')
  {
    hide Tree;
  }

  lemma DropTree(s: State, s': State, c: nat, p: nat)
    requires Base(s) && Tree(s) && Drop(s, s', c, p)
    ensures Tree(s')
  {
    hide OnCpus, LockHeld, Building, Parents, Pids;
    TreeFrame(s, s');
  }

  lemma AllocBase(s: State, s': State, c: nat, p: nat)
    requires Base(s) && Tree(s) && Alloc(s, s', c, p)
    ensures Base(s')
  {
    hide Parents, InitAlive, Pids;
  }

  lemma AllocBuilding(s: State, s': State, c: nat, p: nat)
    requires Base(s) && Tree(s) && Alloc(s, s', c, p)
    ensures Building(s')
  {
    hide Parents, InitAlive, Pids, LockHeld, OnCpus;
  }

  lemma AllocParents(s: State, s': State, c: nat, p: nat)
    requires Base(s) && Tree(s) && Alloc(s, s', c, p)
    ensures Parents(s') && InitAlive(s')
  {
    hide Building, Pids, OnCpus;
  }

  lemma AllocPids(s: State, s': State, c: nat, p: nat)
    requires Base(s) && Tree(s) && Alloc(s, s', c, p)
    ensures Pids(s')
  {
    hide Building, Parents, InitAlive, OnCpus, LockHeld;
  }

  lemma AllocTree(s: State, s': State, c: nat, p: nat)
    requires Base(s) && Tree(s) && Alloc(s, s', c, p)
    ensures Tree(s')
  {
    AllocBuilding(s, s', c, p);
    AllocParents(s, s', c, p);
    AllocPids(s, s', c, p);
    hide Base, Building, Parents, InitAlive, Pids;
  }

  lemma AllocFailBase(s: State, s': State, c: nat, p: nat)
    requires Base(s) && Tree(s) && AllocFail(s, s', c, p)
    ensures Base(s')
  {
    hide Tree, OnCpus, LockHeld;
    BaseFrame(s, s');
  }

  lemma AllocFailTree(s: State, s': State, c: nat, p: nat)
    requires Base(s) && Tree(s) && AllocFail(s, s', c, p)
    ensures Tree(s')
  {
    hide OnCpus, LockHeld, Building, Parents, Pids;
    TreeFrame(s, s');
  }

  lemma CopyBase(s: State, s': State, c: nat, p: nat)
    requires Base(s) && Tree(s) && Copy(s, s', c, p)
    ensures Base(s')
  {
    BuilderFacts(s, p);
    hide Tree, OnCpus, LockHeld;
    BaseFrame(s, s');
  }

  lemma CopyTree(s: State, s': State, c: nat, p: nat)
    requires Base(s) && Tree(s) && Copy(s, s', c, p)
    ensures Tree(s')
  {
    hide OnCpus, LockHeld, Building, Parents, Pids;
    TreeFrame(s, s');
  }

  lemma CopyFailBase(s: State, s': State, c: nat, p: nat)
    requires Base(s) && Tree(s) && CopyFail(s, s', c, p)
    ensures Base(s')
  {
    BuilderFacts(s, p);
    hide Tree, OnCpus, LockHeld;
    BaseFrame(s, s');
  }

  lemma CopyFailBuilding(s: State, s': State, c: nat, p: nat)
    requires Base(s) && Tree(s) && CopyFail(s, s', c, p)
    ensures Building(s')
  {
    BuilderFacts(s, p);
    hide Parents, InitAlive, Pids, LockHeld, OnCpus, Building;
    BuilderDone(s, s', p);
  }

  lemma CopyFailParents(s: State, s': State, c: nat, p: nat)
    requires Base(s) && Tree(s) && CopyFail(s, s', c, p)
    ensures Parents(s') && InitAlive(s')
  {
    BuilderFacts(s, p);
    hide Building, Pids, OnCpus;
  }

  lemma CopyFailPids(s: State, s': State, c: nat, p: nat)
    requires Base(s) && Tree(s) && CopyFail(s, s', c, p)
    ensures Pids(s')
  {
    BuilderFacts(s, p);
    hide Building, Parents, InitAlive, OnCpus, LockHeld;
  }

  lemma CopyFailTree(s: State, s': State, c: nat, p: nat)
    requires Base(s) && Tree(s) && CopyFail(s, s', c, p)
    ensures Tree(s')
  {
    CopyFailBuilding(s, s', c, p);
    CopyFailParents(s, s', c, p);
    CopyFailPids(s, s', c, p);
    hide Base, Building, Parents, InitAlive, Pids;
  }

  lemma LinkBase(s: State, s': State, c: nat, p: nat)
    requires Base(s) && Tree(s) && Link(s, s', c, p)
    ensures Base(s')
  {
    BuilderFacts(s, p);
    hide Tree, OnCpus, LockHeld;
    BaseFrame(s, s');
  }

  lemma LinkBuilding(s: State, s': State, c: nat, p: nat)
    requires Base(s) && Tree(s) && Link(s, s', c, p)
    ensures Building(s')
  {
    BuilderFacts(s, p);
    hide Parents, InitAlive, Pids, LockHeld, OnCpus;
  }

  lemma LinkParents(s: State, s': State, c: nat, p: nat)
    requires Base(s) && Tree(s) && Link(s, s', c, p)
    ensures Parents(s') && InitAlive(s')
  {
    BuilderFacts(s, p);
    hide Building, Pids, OnCpus;
  }

  lemma LinkPids(s: State, s': State, c: nat, p: nat)
    requires Base(s) && Tree(s) && Link(s, s', c, p)
    ensures Pids(s')
  {
    BuilderFacts(s, p);
    hide Building, Parents, InitAlive, OnCpus, LockHeld;
  }

  lemma LinkTree(s: State, s': State, c: nat, p: nat)
    requires Base(s) && Tree(s) && Link(s, s', c, p)
    ensures Tree(s')
  {
    LinkBuilding(s, s', c, p);
    LinkParents(s, s', c, p);
    LinkPids(s, s', c, p);
    hide Base, Building, Parents, InitAlive, Pids;
  }

  lemma LaunchBase(s: State, s': State, c: nat, p: nat)
    requires Base(s) && Tree(s) && Launch(s, s', c, p)
    ensures Base(s')
  {
    BuilderFacts(s, p);
    hide Tree, OnCpus, LockHeld;
    BaseFrame(s, s');
  }

  lemma LaunchBuilding(s: State, s': State, c: nat, p: nat)
    requires Base(s) && Tree(s) && Launch(s, s', c, p)
    ensures Building(s')
  {
    BuilderFacts(s, p);
    hide Parents, InitAlive, Pids, LockHeld, OnCpus, Building;
    BuilderDone(s, s', p);
  }

  lemma LaunchParents(s: State, s': State, c: nat, p: nat)
    requires Base(s) && Tree(s) && Launch(s, s', c, p)
    ensures Parents(s') && InitAlive(s')
  {
    BuilderFacts(s, p);
    hide Building, Pids, OnCpus;
  }

  lemma LaunchPids(s: State, s': State, c: nat, p: nat)
    requires Base(s) && Tree(s) && Launch(s, s', c, p)
    ensures Pids(s')
  {
    BuilderFacts(s, p);
    hide Building, Parents, InitAlive, OnCpus, LockHeld;
  }

  lemma LaunchTree(s: State, s': State, c: nat, p: nat)
    requires Base(s) && Tree(s) && Launch(s, s', c, p)
    ensures Tree(s')
  {
    LaunchBuilding(s, s', c, p);
    LaunchParents(s, s', c, p);
    LaunchPids(s, s', c, p);
    hide Base, Building, Parents, InitAlive, Pids;
  }

  lemma WakeParentBase(s: State, s': State, c: nat, p: nat)
    requires Base(s) && Tree(s) && WakeParent(s, s', c, p)
    ensures Base(s')
  {
    hide Tree, OnCpus, LockHeld;
    BaseFrame(s, s');
  }

  lemma WakeParentTree(s: State, s': State, c: nat, p: nat)
    requires Base(s) && Tree(s) && WakeParent(s, s', c, p)
    ensures Tree(s')
  {
    hide OnCpus, LockHeld, Building, Parents, Pids;
    TreeFrame(s, s');
  }

  lemma ReparentBase(s: State, s': State, c: nat, p: nat)
    requires Base(s) && Tree(s) && Reparent(s, s', c, p)
    ensures Base(s')
  {
    hide Tree, OnCpus, LockHeld;
    BaseFrame(s, s');
  }

  lemma HandedOverBuilding(s: State, p: nat)
    requires Base(s) && Tree(s) && p < |s.slots| && s.slots[p].pc.ExitScan? && s.slots[p].pc.i < |s.slots|
    ensures Building(HandedOver(s, p, s.slots[p].pc.i))
  {
    hide Parents, InitAlive, Pids, LockHeld, OnCpus;
  }

  lemma HandedOverParents(s: State, p: nat)
    requires Base(s) && Tree(s) && p < |s.slots| && s.slots[p].pc.ExitScan? && s.slots[p].pc.i < |s.slots|
    ensures Parents(HandedOver(s, p, s.slots[p].pc.i)) && InitAlive(HandedOver(s, p, s.slots[p].pc.i))
  {
    hide Building, Pids, OnCpus, LockHeld;
  }

  lemma HandedOverPids(s: State, p: nat)
    requires Base(s) && Tree(s) && p < |s.slots| && s.slots[p].pc.ExitScan? && s.slots[p].pc.i < |s.slots|
    ensures Pids(HandedOver(s, p, s.slots[p].pc.i))
  {
    hide Building, Parents, InitAlive, OnCpus, LockHeld;
  }

  lemma ReparentTree(s: State, s': State, c: nat, p: nat)
    requires Base(s) && Tree(s) && Reparent(s, s', c, p)
    ensures Tree(s')
  {
    HandedOverBuilding(s, p);
    HandedOverParents(s, p);
    HandedOverPids(s, p);
    hide Base, Building, Parents, Pids, HandedOver;
    TreeFrame(HandedOver(s, p, s.slots[p].pc.i), s');
  }

  lemma DieBase(s: State, s': State, c: nat, p: nat)
    requires Base(s) && Tree(s) && Die(s, s', c, p)
    ensures Base(s')
  {
    hide Tree, OnCpus, LockHeld;
    BaseFrame(s, s');
  }

  lemma DieTree(s: State, s': State, c: nat, p: nat)
    requires Base(s) && Tree(s) && Die(s, s', c, p)
    ensures Tree(s')
  {
    hide OnCpus;
  }

  lemma PassBase(s: State, s': State, c: nat, p: nat)
    requires Base(s) && Tree(s) && Pass(s, s', c, p)
    ensures Base(s')
  {
    hide Tree, OnCpus, LockHeld;
    BaseFrame(s, s');
  }

  lemma PassTree(s: State, s': State, c: nat, p: nat)
    requires Base(s) && Tree(s) && Pass(s, s', c, p)
    ensures Tree(s')
  {
    hide OnCpus, LockHeld, Building, Parents, Pids;
    TreeFrame(s, s');
  }

  lemma ReapBase(s: State, s': State, c: nat, p: nat)
    requires Base(s) && Tree(s) && Reap(s, s', c, p)
    ensures Base(s')
  {
    hide Tree;
  }

  lemma ReapBuilding(s: State, s': State, c: nat, p: nat)
    requires Base(s) && Tree(s) && Reap(s, s', c, p)
    ensures Building(s')
  {
    hide Parents, InitAlive, Pids, LockHeld, OnCpus;
  }

  lemma ReapParents(s: State, s': State, c: nat, p: nat)
    requires Base(s) && Tree(s) && Reap(s, s', c, p)
    ensures Parents(s') && InitAlive(s')
  {
    hide Building, Pids, OnCpus;
  }

  lemma ReapPids(s: State, s': State, c: nat, p: nat)
    requires Base(s) && Tree(s) && Reap(s, s', c, p)
    ensures Pids(s')
  {
    hide Building, Parents, InitAlive, OnCpus, LockHeld;
  }

  lemma ReapTree(s: State, s': State, c: nat, p: nat)
    requires Base(s) && Tree(s) && Reap(s, s', c, p)
    ensures Tree(s')
  {
    ReapBuilding(s, s', c, p);
    ReapParents(s, s', c, p);
    ReapPids(s, s', c, p);
    hide Base, Building, Parents, InitAlive, Pids;
  }

  lemma WaitEndBase(s: State, s': State, c: nat, p: nat)
    requires Base(s) && Tree(s) && WaitEnd(s, s', c, p)
    ensures Base(s')
  {
    hide Tree, OnCpus, LockHeld;
    BaseFrame(s, s');
  }

  lemma WaitEndTree(s: State, s': State, c: nat, p: nat)
    requires Base(s) && Tree(s) && WaitEnd(s, s', c, p)
    ensures Tree(s')
  {
    hide OnCpus, LockHeld, Building, Parents, Pids;
    TreeFrame(s, s');
  }

  lemma WaitSleepBase(s: State, s': State, c: nat, p: nat)
    requires Base(s) && Tree(s) && WaitSleep(s, s', c, p)
    ensures Base(s')
  {
    hide Tree, OnCpus, LockHeld;
    BaseFrame(s, s');
  }

  lemma WaitSleepTree(s: State, s': State, c: nat, p: nat)
    requires Base(s) && Tree(s) && WaitSleep(s, s', c, p)
    ensures Tree(s')
  {
    hide OnCpus, LockHeld, Building, Parents, Pids;
    TreeFrame(s, s');
  }

  lemma MarkBase(s: State, s': State, c: nat, p: nat)
    requires Base(s) && Tree(s) && Mark(s, s', c, p)
    ensures Base(s')
  {
    hide Tree, OnCpus, LockHeld;
    BaseFrame(s, s');
  }

  lemma MarkTree(s: State, s': State, c: nat, p: nat)
    requires Base(s) && Tree(s) && Mark(s, s', c, p)
    ensures Tree(s')
  {
    hide OnCpus, LockHeld, Building, Parents, Pids;
    TreeFrame(s, s');
  }

  lemma LeaveBase(s: State, s': State, c: nat, p: nat)
    requires Base(s) && Tree(s) && Leave(s, s', c, p)
    ensures Base(s')
  {
    MoveOn(s.cpus, c, Scan(p + 1));
    hide Tree;
  }

  lemma LeaveTree(s: State, s': State, c: nat, p: nat)
    requires Base(s) && Tree(s) && Leave(s, s', c, p)
    ensures Tree(s')
  {
    hide OnCpus, LockHeld, Building, Parents, Pids;
    TreeFrame(s, s');
  }

  lemma WakeOneBase(s: State, s': State, c: nat, p: nat)
    requires Base(s) && Tree(s) && WakeOne(s, s', c, p)
    ensures Base(s')
  {
    hide Tree, OnCpus, LockHeld;
    BaseFrame(s, s');
  }

  lemma WakeOneTree(s: State, s': State, c: nat, p: nat)
    requires Base(s) && Tree(s) && WakeOne(s, s', c, p)
    ensures Tree(s')
  {
    hide OnCpus, LockHeld, Building, Parents, Pids;
    TreeFrame(s, s');
  }

  lemma BeginBase(s: State, s': State, c: nat)
    requires Base(s) && Tree(s) && Begin(s, s', c)
    ensures Base(s')
  {
    MoveOn(s.cpus, c, Scan(0));
    hide Tree;
  }

  lemma BeginTree(s: State, s': State, c: nat)
    requires Base(s) && Tree(s) && Begin(s, s', c)
    ensures Tree(s')
  {
    hide OnCpus, LockHeld, Building, Parents, Pids;
    TreeFrame(s, s');
  }

  lemma SkipBase(s: State, s': State, c: nat)
    requires Base(s) && Tree(s) && Skip(s, s', c)
    ensures Base(s')
  {
    MoveOn(s.cpus, c, Scan(s.cpus[c].i + 1));
    hide Tree;
  }

  lemma SkipTree(s: State, s': State, c: nat)
    requires Base(s) && Tree(s) && Skip(s, s', c)
    ensures Tree(s')
  {
    hide OnCpus, LockHeld, Building, Parents, Pids;
    TreeFrame(s, s');
  }

  lemma EndBase(s: State, s': State, c: nat)
    requires Base(s) && Tree(s) && End(s, s', c)
    ensures Base(s')
  {
    MoveOn(s.cpus, c, Want);
    hide Tree;
  }

  lemma EndTree(s: State, s': State, c: nat)
    requires Base(s) && Tree(s) && End(s, s', c)
    ensures Tree(s')
  {
    hide OnCpus, LockHeld, Building, Parents, Pids;
    TreeFrame(s, s');
  }

  lemma DispatchBase(s: State, s': State, c: nat)
    requires Base(s) && Tree(s) && Dispatch(s, s', c)
    ensures Base(s')
  {
    MoveOn(s.cpus, c, Runs(s.cpus[c].i));
    hide Tree;
  }

  lemma DispatchTree(s: State, s': State, c: nat)
    requires Base(s) && Tree(s) && Dispatch(s, s', c)
    ensures Tree(s')
  {
    hide OnCpus, LockHeld, Building, Parents, Pids;
    TreeFrame(s, s');
  }

  lemma ProcessInv(s: State, s': State, c: nat, p: nat)
    requires Base(s) && Tree(s) && ProcessStep(s, s', c, p)
    ensures Base(s') && Tree(s')
  {
    hide Base, Tree, Enter, Take, Drop, Alloc, AllocFail, Copy, CopyFail, Link, Launch, WakeParent, Reparent, Die, Pass,
         Reap, WaitEnd, WaitSleep, Mark, Leave, WakeOne;
    if Enter(s, s', c, p) {
      EnterBase(s, s', c, p);
      EnterTree(s, s', c, p);
    } else if Take(s, s', c, p) {
      TakeBase(s, s', c, p);
      TakeTree(s, s', c, p);
    } else if Drop(s, s', c, p) {
      DropBase(s, s', c, p);
      DropTree(s, s', c, p);
    } else if Alloc(s, s', c, p) {
      AllocBase(s, s', c, p);
      AllocTree(s, s', c, p);
    } else if AllocFail(s, s', c, p) {
      AllocFailBase(s, s', c, p);
      AllocFailTree(s, s', c, p);
    } else if Copy(s, s', c, p) {
      CopyBase(s, s', c, p);
      CopyTree(s, s', c, p);
    } else if CopyFail(s, s', c, p) {
      CopyFailBase(s, s', c, p);
      CopyFailTree(s, s', c, p);
    } else if Link(s, s', c, p) {
      LinkBase(s, s', c, p);
      LinkTree(s, s', c, p);
    } else if Launch(s, s', c, p) {
      LaunchBase(s, s', c, p);
      LaunchTree(s, s', c, p);
    } else if WakeParent(s, s', c, p) {
      WakeParentBase(s, s', c, p);
      WakeParentTree(s, s', c, p);
    } else if Reparent(s, s', c, p) {
      ReparentBase(s, s', c, p);
      ReparentTree(s, s', c, p);
    } else if Die(s, s', c, p) {
      DieBase(s, s', c, p);
      DieTree(s, s', c, p);
    } else if Pass(s, s', c, p) {
      PassBase(s, s', c, p);
      PassTree(s, s', c, p);
    } else if Reap(s, s', c, p) {
      ReapBase(s, s', c, p);
      ReapTree(s, s', c, p);
    } else if WaitEnd(s, s', c, p) {
      WaitEndBase(s, s', c, p);
      WaitEndTree(s, s', c, p);
    } else if WaitSleep(s, s', c, p) {
      WaitSleepBase(s, s', c, p);
      WaitSleepTree(s, s', c, p);
    } else if Mark(s, s', c, p) {
      MarkBase(s, s', c, p);
      MarkTree(s, s', c, p);
    } else if Leave(s, s', c, p) {
      LeaveBase(s, s', c, p);
      LeaveTree(s, s', c, p);
    } else {
      WakeOneBase(s, s', c, p);
      WakeOneTree(s, s', c, p);
    }
  }

  lemma CpuInv(s: State, s': State, c: nat)
    requires Base(s) && Tree(s) && CpuStep(s, s', c)
    ensures Base(s') && Tree(s')
  {
    hide Base, Tree, Begin, Skip, End, Dispatch;
    if Begin(s, s', c) {
      BeginBase(s, s', c);
      BeginTree(s, s', c);
    } else if Skip(s, s', c) {
      SkipBase(s, s', c);
      SkipTree(s, s', c);
    } else if End(s, s', c) {
      EndBase(s, s', c);
      EndTree(s, s', c);
    } else {
      DispatchBase(s, s', c);
      DispatchTree(s, s', c);
    }
  }

  // ---------- exit and wait ----------

  /** The parent of a zombie, or of a process that is becoming one, does not sleep in wait, and a scan for zombies has
      not passed any. Nobody is its own parent, and initproc has none. */
  ghost predicate Noticed(s: State)
  {
    && s.init < |s.slots| && s.slots[s.init].parent.Null?
    && forall q {:trigger s.slots[q].parent} ::
        0 <= q < |s.slots| && s.slots[q].parent.To? && s.slots[q].parent.slot < |s.slots| ==>
         NoticedBy(s.slots[q], s.slots[s.slots[q].parent.slot], q) && s.slots[q].parent.slot != q
  }

  /** Child x in slot q, and its parent. */
  predicate NoticedBy(x: Slot, parent: Slot, q: nat)
  {
    && (x.st.Zombie? || x.pc.ExitScan? ==> !Dozes(parent))
    && (x.st.Zombie? && parent.pc.WaitScan? ==> parent.pc.i <= q)
  }

  /** What steps do to a slot that are not about children and parents. */
  predicate Unaware(x: Slot, y: Slot)
  {
    && y.parent == x.parent && (y.st.Zombie? ==> x.st.Zombie?) && (y.pc.ExitScan? ==> x.pc.ExitScan?)
    && (Dozes(y) ==> Dozes(x)) && (y.pc.WaitScan? ==> y.pc.i == 0 || (x.pc.WaitScan? && y.pc.i <= x.pc.i))
  }

  lemma NoticedFrame(s: State, s': State)
    requires Noticed(s) && |s'.slots| == |s.slots| && s'.init == s.init
    requires forall p :: 0 <= p < |s.slots| ==> Unaware(s.slots[p], s'.slots[p])
    ensures Noticed(s')
  {
  }

  lemma InitNoticed(s: State)
    requires Init(s)
    ensures Noticed(s)
  {
  }

  lemma LinkNoticed(s: State, s': State, c: nat, p: nat)
    requires Base(s) && Tree(s) && Noticed(s) && Link(s, s', c, p)
    ensures Noticed(s')
  {
    BuilderFacts(s, p);
    hide OnCpus, LockHeld, Building, Parents, Pids;
  }

  lemma WakeParentNoticed(s: State, s': State, c: nat, p: nat)
    requires Base(s) && Tree(s) && Noticed(s) && WakeParent(s, s', c, p)
    ensures Noticed(s')
  {
    hide Base, Tree, Noticed;
    var w := s.(slots := Woken(s.slots, s.slots[p].parent));
    NoticedFrame(s, w);
    WakeFirst(s, w, s', c, p);
    StartScan(w, p);
  }

  lemma WakeFirst(s: State, w: State, s': State, c: nat, p: nat)
    requires WakeParent(s, s', c, p) && w == s.(slots := Woken(s.slots, s.slots[p].parent))
    ensures w.slots[p].parent == s.slots[p].parent && w.slots[p].pc == s.slots[p].pc && w.slots[p].st == s.slots[p].st
    ensures s' == w.(slots := w.slots[p := w.slots[p].(pc := ExitScan(0))])
    ensures w.slots[p].parent.To? && w.slots[p].parent.slot < |w.slots| ==> !Dozes(w.slots[w.slots[p].parent.slot])
  {
    assert s'.slots == w.slots[p := w.slots[p].(pc := ExitScan(0))];
  }

  lemma StartScan(s: State, p: nat)
    requires Noticed(s) && p < |s.slots| && s.slots[p].pc.ExitWake?
    requires s.slots[p].parent.To? && s.slots[p].parent.slot < |s.slots| ==> !Dozes(s.slots[s.slots[p].parent.slot])
    ensures Noticed(s.(slots := s.slots[p := s.slots[p].(pc := ExitScan(0))]))
  {
  }

  lemma GoneOn(s: State, p: nat, i: nat)
    requires Noticed(s) && p < |s.slots| && s.slots[p].pc.ExitScan?
    ensures Noticed(s.(slots := s.slots[p := s.slots[p].(pc := ExitScan(i + 1))]))
  {
    hide Noticed;
    NoticedFrame(s, s.(slots := s.slots[p := s.slots[p].(pc := ExitScan(i + 1))]));
  }

  lemma HandedOverNoticed(s: State, p: nat)
    requires Base(s) && Tree(s) && Noticed(s) && p < |s.slots| && s.slots[p].pc.ExitScan? && s.slots[p].pc.i < |s.slots|
    requires !(s.slots[s.slots[p].pc.i].parent == To(p) && s.slots[s.slots[p].pc.i].st.Zombie?
           && Dozes(s.slots[s.init]))
    ensures Noticed(HandedOver(s, p, s.slots[p].pc.i))
  {
    LockedOnce(s, p);
    var i := s.slots[p].pc.i;
    var t := HandedOver(s, p, i);
    hide Base, Building, Parents, Pids;
    var slots := s.slots[p := s.slots[p].(pc := ExitScan(i + 1))];
    GoneOn(s, p, i);
    if slots[i].parent == To(p) {
      assert i != p && i != s.init && !slots[i].pc.ExitScan? && !slots[s.init].pc.WaitScan?;
      hide Noticed, HasLock;
      GivenNoticed(s.(slots := slots), i);
    }
  }

  /** A child is given to initproc, which neither dozes by a zombie nor scans. */
  lemma GivenNoticed(s: State, i: nat)
    requires Noticed(s) && i < |s.slots| && i != s.init && !s.slots[i].pc.ExitScan? && !s.slots[s.init].pc.WaitScan?
    requires !(s.slots[i].st.Zombie? && Dozes(s.slots[s.init]))
    ensures Noticed(s.(slots := s.slots[i := s.slots[i].(parent := To(s.init))]))
  {
  }

  lemma ReparentNoticed(s: State, s': State, c: nat, p: nat)
    requires Base(s) && Tree(s) && Noticed(s) && Reparent(s, s', c, p)
    ensures Noticed(s')
  {
    hide Base, Building, Parents, Pids, Noticed;
    var i := s.slots[p].pc.i;
    if s.slots[i].parent == To(p) && s.slots[i].st.Zombie? && Dozes(s.slots[s.init]) {
      // Waking initproc before the child is handed over comes to the same.
      var w := s.(slots := Woken(s.slots, To(s.init)));
      WokenInv(s, w, p);
      WokenFirst(s, w, s', c, p);
      HandedOverNoticed(w, p);
    } else {
      HandedOverNoticed(s, p);
    }
  }

  lemma WokenFirst(s: State, w: State, s': State, c: nat, p: nat)
    requires Reparent(s, s', c, p) && w == s.(slots := Woken(s.slots, To(s.init))) && s.init < |s.slots| && s.init != p
    requires s.slots[s.slots[p].pc.i].parent == To(p) && s.slots[s.slots[p].pc.i].st.Zombie? && Dozes(s.slots[s.init])
    ensures w.slots[p] == s.slots[p] && s' == HandedOver(w, p, s.slots[p].pc.i) && !Dozes(w.slots[s.init])
  {
    assert s'.slots == HandedOver(w, p, s.slots[p].pc.i).slots;
  }

  lemma WokenInv(s: State, w: State, p: nat)
    requires Base(s) && Tree(s) && Noticed(s) && w == s.(slots := Woken(s.slots, To(s.init))) && p < |s.slots|
    ensures Base(w) && Tree(w) && Noticed(w)
  {
    hide OnCpus, LockHeld, Building, Parents, Pids, Noticed;
    BaseFrame(s, w);
    TreeFrame(s, w);
    NoticedFrame(s, w);
  }

  lemma DieNoticed(s: State, s': State, c: nat, p: nat)
    requires Base(s) && Tree(s) && Noticed(s) && Die(s, s', c, p)
    ensures Noticed(s')
  {
    LockedOnce(s, p);
    hide OnCpus, LockHeld, Building, Parents, Pids;
  }

  lemma PassNoticed(s: State, s': State, c: nat, p: nat)
    requires Base(s) && Tree(s) && Noticed(s) && Pass(s, s', c, p)
    ensures Noticed(s')
  {
    hide OnCpus, LockHeld, Building, Parents, Pids;
  }

  lemma ReapNoticed(s: State, s': State, c: nat, p: nat)
    requires Base(s) && Tree(s) && Noticed(s) && Reap(s, s', c, p)
    ensures Noticed(s')
  {
    hide OnCpus, LockHeld, Building, Pids;
  }

  lemma WaitSleepNoticed(s: State, s': State, c: nat, p: nat)
    requires Base(s) && Tree(s) && Noticed(s) && WaitSleep(s, s', c, p)
    ensures Noticed(s')
  {
    LockedOnce(s, p);
    hide OnCpus, LockHeld, Building, Parents, Pids;
  }

  /** Steps that are not about children and parents. */
  lemma OtherNoticed(s: State, s': State, c: nat, p: nat)
    requires Base(s) && Tree(s) && Noticed(s)
    requires || Enter(s, s', c, p) || Take(s, s', c, p) || Drop(s, s', c, p) || Alloc(s, s', c, p)
           || AllocFail(s, s', c, p)
             || Copy(s, s', c, p) || CopyFail(s, s', c, p) || Launch(s, s', c, p) || WaitEnd(s, s', c, p)
               || Mark(s, s', c, p)
             || Leave(s, s', c, p) || WakeOne(s, s', c, p) || CpuStep(s, s', c)
    ensures Noticed(s')
  {
    hide OnCpus, LockHeld, Parents, Pids, Noticed;
    if p < |s.slots| && Target(s.slots[p].pc) >= 0 {
      BuilderFacts(s, p);
    }
    hide Building;
    NoticedFrame(s, s');
  }

  lemma StepNoticed(s: State, s': State, c: nat, p: nat)
    requires Base(s) && Tree(s) && Noticed(s) && (ProcessStep(s, s', c, p) || CpuStep(s, s', c))
    ensures Noticed(s')
  {
    hide Base, Tree, Noticed, Enter, Take, Drop, Alloc, AllocFail, Copy, CopyFail, Link, Launch, WakeParent, Reparent,
         Die, Pass, Reap, WaitEnd, WaitSleep, Mark, Leave, WakeOne, CpuStep;
    if Link(s, s', c, p) {
      LinkNoticed(s, s', c, p);
    } else if WakeParent(s, s', c, p) {
      WakeParentNoticed(s, s', c, p);
    } else if Reparent(s, s', c, p) {
      ReparentNoticed(s, s', c, p);
    } else if Die(s, s', c, p) {
      DieNoticed(s, s', c, p);
    } else if Pass(s, s', c, p) {
      PassNoticed(s, s', c, p);
    } else if Reap(s, s', c, p) {
      ReapNoticed(s, s', c, p);
    } else if WaitSleep(s, s', c, p) {
      WaitSleepNoticed(s, s', c, p);
    } else {
      OtherNoticed(s, s', c, p);
    }
  }

  /** Every state of every run satisfies the invariants. */
  lemma {:induction false} RunInv(r: seq<State>)
    requires Run(r)
    ensures Base(Last(r)) && Tree(Last(r)) && Noticed(Last(r))
  {
    hide Base, Tree, Noticed, Init, ProcessStep, CpuStep;
    if |r| == 1 {
      InitBase(r[0]);
      InitTree(r[0]);
      InitNoticed(r[0]);
    } else {
      var before := r[..|r| - 1];
      RunInv(before);
      var s, s' := r[|r| - 2], Last(r);
      assert before[|before| - 1] == s && Next(s, s');
      if c, p :| ProcessStep(s, s', c, p) {
        ProcessInv(s, s', c, p);
        StepNoticed(s, s', c, p);
      } else {
        var c :| CpuStep(s, s', c);
        CpuInv(s, s', c);
        StepNoticed(s, s', c, 0);
      }
    }
  }

  // ---------- What the table promises ----------

  /** Whenever ptable.lock is free, the RUNNING processes are those some cpu->proc points to, each by one CPU only. */
  lemma RunningMeansOnCpu(r: seq<State>, p: nat)
    requires Run(r) && Last(r).ptable.Free? && p < |Last(r).slots|
    ensures Last(r).slots[p].st.Running? <==> OnSome(Last(r).cpus, p)
    ensures forall c, d :: RunsOn(Last(r), c, p) && RunsOn(Last(r), d, p) ==> c == d
  {
    hide Run, Tree;
    RunInv(r);
  }

  /** Live processes have different pids. */
  lemma DistinctPids(r: seq<State>, p: nat, q: nat)
    requires Run(r) && p < |Last(r).slots| && q < |Last(r).slots| && p != q
    requires !Last(r).slots[p].st.Unused? && !Last(r).slots[q].st.Unused?
    ensures Last(r).slots[p].pid != Last(r).slots[q].pid
  {
    hide Run, Base, Building, Parents;
    RunInv(r);
  }

  /** A parent pointer never names an unused slot, a slot under construction or a zombie: a zombie has no children. */
  lemma ParentsAlive(r: seq<State>, q: nat)
    requires Run(r) && q < |Last(r).slots| && Last(r).slots[q].parent.To?
    ensures Last(r).slots[q].parent.slot < |Last(r).slots| && Alive(Last(r).slots[Last(r).slots[q].parent.slot].st)
  {
    hide Run, Base, Building, Pids;
    RunInv(r);
  }

  /** wait, and a failing fork, free a kernel stack only of a process that executes on no CPU and is nobody's parent. */
  lemma StackFreedOffCpu(r: seq<State>, s': State, c: nat, p: nat, q: nat)
    requires Run(r) && (Reap(Last(r), s', c, p) || CopyFail(Last(r), s', c, p))
    requires q < |Last(r).slots| && Last(r).slots[q].kstack && q < |s'.slots| && !s'.slots[q].kstack
    ensures !OnSome(Last(r).cpus, q)
    ensures forall x: Slot :: x in Last(r).slots ==> x.parent != To(q)
  {
    var s := Last(r);
    hide Run;
    RunInv(r);
    if CopyFail(s, s', c, p) {
      BuilderFacts(s, p);
    }
    hide Building, Pids;
  }

  /** No lost wakeup between exit and wait: nobody sleeps in wait while a child of it is a zombie, wherever the child's
      exit, the parent's wait and the exits of others, which hand zombies over to initproc, interleave. */
  lemma NobodyWaitsForZombie(r: seq<State>, p: nat, q: nat)
    requires Run(r) && p < |Last(r).slots| && q < |Last(r).slots|
    requires Last(r).slots[q].parent == To(p) && Last(r).slots[q].st.Zombie?
    ensures !(Last(r).slots[p].st.Sleeping? && Last(r).slots[p].pc == Off(true))
  {
    hide Run, Base, Tree;
    RunInv(r);
  }

  /** When proc_alloc finds no memory for a stack, ptable.lock is taken from then on: whatever happens later in the run,
      it is never given back. */
  lemma {:induction false} StuckForever(r: seq<State>, i: nat, j: nat, p: nat)
    requires Run(r) && i <= j < |r| && p < |r[i].slots| && r[i].slots[p].pc.Stuck?
    ensures p < |r[j].slots| && r[j].slots[p].pc.Stuck? && r[j].ptable == r[i].ptable && r[j].ptable.By?
    decreases j
  {
    hide Base, Tree, Noticed, ProcessStep, CpuStep, Init;
    if i < j {
      StuckForever(r, i, j - 1, p);
      RunInv(r[..j]);
      assert Next(r[j - 1], r[j - 1 + 1]);
      StuckNext(r[j - 1], r[j], p);
    } else {
      RunInv(r[..j + 1]);
      StuckLocked(r[j], p);
    }
  }

  lemma StuckLocked(s: State, p: nat)
    requires Base(s) && p < |s.slots| && s.slots[p].pc.Stuck?
    ensures s.ptable.By?
  {
    hide OnCpus, Slots;
  }

  lemma StuckNext(s: State, s': State, p: nat)
    requires Base(s) && Tree(s) && Next(s, s') && p < |s.slots| && s.slots[p].pc.Stuck?
    ensures p < |s'.slots| && s'.slots[p].pc.Stuck? && s'.ptable == s.ptable && s.ptable.By?
  {
    hide OnCpus, Parents, Pids, InitAlive;
    if c, q :| ProcessStep(s, s', c, q) {
      StuckStep(s, s', c, q, p);
    }
  }

  lemma StuckStep(s: State, s': State, c: nat, q: nat, p: nat)
    requires Base(s) && Tree(s) && ProcessStep(s, s', c, q) && p < |s.slots| && s.slots[p].pc.Stuck?
    ensures p < |s'.slots| && s'.slots[p].pc.Stuck? && s'.ptable == s.ptable && s.ptable.By?
  {
    LockedOnce(s, p);
    if q < |s.slots| && Target(s.slots[q].pc) >= 0 {
      BuilderFacts(s, q);
    }
    hide Parents, Pids, InitAlive, Building, OnCpus, LockHeld;
  }

  /** Only one process has ptable.lock. */
  lemma LockedOnce(s: State, p: nat)
    requires LockHeld(s) && p < |s.slots| && HasLock(s.slots[p].pc)
    ensures s.ptable.By? && forall q :: 0 <= q < |s.slots| && HasLock(s.slots[q].pc) ==> q == p
  {
  }
}
