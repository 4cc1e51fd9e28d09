/** The scheduler under every interleaving.

    A machine adds to the scheduler's state where each thread stands inside kill or
    create_kernel_thread.  Its events are the timer interrupt, which may come wherever
    interrupts are enabled, and the pieces of yield, kill, nice and
    create_kernel_thread that run between such points; alloc_pid's numThreads++ is two of
    them, a read and a store.  Every other event is done by whoever is executing: the
    current thread, or the boot code before start_scheduler.

    A run is orderly when every store of numThreads finds it as its creator read it, and
    serial when nobody reads it between another's read and store; serial runs are orderly.
    Sound is what holds in every run, Inv what holds in the orderly ones.
 */
module SchedMachine {
  import opened Words
  import opened Sequences
  import opened SchedModel

  /** Inside create_kernel_thread a thread has read numThreads, or has stored it and is about
      to publish thread p. */
  datatype Pc = Outside | Numbering(pid: nat) | Creating(p: Ptr) | Marked | Unlinked

  datatype Machine = Machine(s: Sched, pcs: seq<Pc>, boot: Pc)

  datatype Event =
    | Tick(esp: word)
    | ZeroQuantum
    | SetPriority(p: Ptr, priority: int)
    | Kill
    | KillUnlink
    | CreateRead
    | CreateStore(base: word)
    | CreatePublish
    | StartScheduler

  /** Where the executing code stands. */
  function Here(m: Machine): Pc
    requires m.s.current.Some? ==> m.s.current.value < |m.pcs|
  {
    if m.s.current.Some? then m.pcs[m.s.current.value] else m.boot
  }

  function SetHere(m: Machine, s: Sched, pc: Pc): Machine
    requires s.current.Some? ==> s.current.value < |m.pcs|
  {
    if s.current.Some? then Machine(s, m.pcs[s.current.value := pc], m.boot) else Machine(s, m.pcs, pc)
  }

  predicate Shaped(m: Machine) {
    Typed(m.s) && |m.pcs| == |m.s.tcbs|
  }

  /** May the event happen now?  A tick may not complete when the dispatch scan hangs. */
  predicate Enabled(m: Machine, e: Event)
    requires Shaped(m)
  {
    match e
    case Tick(esp) => TaskSwitch(m.s, esp).Some?
    case ZeroQuantum => m.s.current.Some? && (Here(m).Outside? || Here(m).Unlinked?)
    case SetPriority(p, _) => m.s.current.Some? && Here(m).Outside? && p < |m.s.tcbs|
    case Kill => m.s.current.Some? && Here(m).Outside?
    case KillUnlink => m.s.current.Some? && Here(m).Marked?
    case CreateRead => Here(m).Outside? && m.s.num < MAX_THREADS
    case CreateStore(base) => Here(m).Numbering? && Here(m).pid < MAX_THREADS
    case CreatePublish => Here(m).Creating? && Here(m).p < |m.s.tcbs| && m.s.tcbs[Here(m).p].id < MAX_THREADS
    case StartScheduler => m.s.current.None? && m.boot.Outside? && m.s.num > 0 && m.s.slots[0].Some?
  }

  function Step(m: Machine, e: Event): Machine
    requires Shaped(m) && Enabled(m, e)
  {
    match e
    case Tick(esp) => m.(s := TaskSwitch(m.s, esp).value.0)
    case ZeroQuantum => m.(s := SetQuantum(m.s, 0))
    case SetPriority(p, priority) => m.(s := Nice(m.s, p, priority))
    case Kill => SetHere(m, MarkZombie(m.s), Marked)
    case KillUnlink => SetHere(m, SchedModel.Unlink(m.s), Unlinked)
    case CreateRead => SetHere(m, m.s, Numbering(m.s.num))
    case CreateStore(base) =>
      var m' := SetHere(m, m.s, Creating(|m.s.tcbs|));
      Machine(NewThread(m.s, Here(m).pid, base), m'.pcs + [Outside], m'.boot)
    case CreatePublish => SetHere(m, Publish(m.s, Here(m).p), Outside)
    case StartScheduler => m.(s := Start(m.s))
  }

  /** No event is left out: a thread anywhere else than inside kill or create_kernel_thread can
      yield, be killed, change a priority or begin to create; inside, it can go on, and after
      unlinking itself yield; and the boot code can start the scheduler over thread 0. */
  lemma NothingLeftOut(m: Machine, p: Ptr, priority: int, base: word)
    requires Shaped(m) && m.s.current.Some? && p < |m.s.tcbs|
    ensures Here(m) == Outside ==>
      Enabled(m, ZeroQuantum) && Enabled(m, Event.Kill) && Enabled(m, SetPriority(p, priority)) && (m.s.num < 1024 ==> Enabled(m, CreateRead))
    ensures Here(m) == Marked ==> Enabled(m, KillUnlink)
    ensures Here(m) == Unlinked ==> Enabled(m, ZeroQuantum)
    ensures Here(m).Numbering? && Here(m).pid < 1024 ==> Enabled(m, CreateStore(base))
    ensures Here(m).Creating? && Here(m).p < |m.s.tcbs| && m.s.tcbs[Here(m).p].id < 1024 ==> Enabled(m, CreatePublish)
  {
  }

  lemma BootLeavesNothingOut(m: Machine, base: word)
    requires Shaped(m) && m.s.current.None?
    ensures m.boot == Outside && m.s.num < 1024 ==> Enabled(m, CreateRead)
    ensures m.boot == Outside && m.s.num >= 1 && m.s.slots[0].Some? ==> Enabled(m, StartScheduler)
    ensures m.boot.Numbering? && m.boot.pid < 1024 ==> Enabled(m, CreateStore(base))
    ensures m.boot.Creating? && m.boot.p < |m.s.tcbs| && m.s.tcbs[m.boot.p].id < 1024 ==> Enabled(m, CreatePublish)
  {
  }

  /** The machine after init_multitasking has cleared the table. */
  const BOOT := Machine(Sched(0, None, seq(MAX_THREADS, _ => None), 0, [], []), [], Outside)

  /** A store of numThreads loses no other creator's store. */
  predicate Fresh(m: Machine, e: Event)
    requires Shaped(m)
  {
    e.CreateStore? ==> Here(m).Numbering? && Here(m).pid == m.s.num
  }

  predicate Proper(m: Machine, e: Event)
    requires Shaped(m)
  {
    Enabled(m, e) && Fresh(m, e)
  }

  // ----- the invariant -----

  predicate IsReady(t: Tcb) {
    t.status == Ready || t.status == Wait
  }

  /** pThreads holds thread i in slot i or nothing, and lThreads lists exactly the
      threads that have a slot, once each. */
  ghost predicate Agree(s: Sched) {
    && (forall i :: 0 <= i < |s.slots| && s.slots[i].Some? ==> i < s.num && s.slots[i].value == i)
    && (forall p: nat :: p in s.list <==> p < |s.slots| && s.slots[p].Some?)
    && Distinct(s.list)
  }

  ghost predicate Bounded(t: Tcb) {
    -INT_PER_SLICE < t.priority < INT_PER_SLICE && t.quantum < 2 * INT_PER_SLICE
  }

  /** numThreads counts the threads, and the scan's index is below it. */
  predicate Counted(m: Machine) {
    Shaped(m) && |m.s.tcbs| == m.s.num && (m.s.current.Some? ==> m.s.currentTask < m.s.num)
  }

  ghost predicate CurrentOk(m: Machine, c: Ptr)
    requires Counted(m) && c < m.s.num
  {
    && c == m.s.currentTask && m.s.tcbs[c].id == c
    && match m.pcs[c]
       case Outside => (m.s.tcbs[c].status == Running || m.s.tcbs[c].status == Ready) && m.s.slots[c].Some?
       case Numbering(_) => (m.s.tcbs[c].status == Running || m.s.tcbs[c].status == Ready) && m.s.slots[c].Some?
       case Creating(_) => (m.s.tcbs[c].status == Running || m.s.tcbs[c].status == Ready) && m.s.slots[c].Some?
       case Marked => m.s.tcbs[c].status == Zombie && m.s.slots[c].Some?
       case Unlinked => m.s.tcbs[c].status == Zombie && m.s.slots[c].None?
  }

  ghost predicate OtherOk(m: Machine, p: Ptr)
    requires Counted(m) && p < m.s.num
  {
    match m.pcs[p]
    case Outside => IsReady(m.s.tcbs[p]) && m.s.tcbs[p].id == p && (m.s.slots[p].None? ==> m.s.tcbs[p].status == Ready)
    case Numbering(_) => IsReady(m.s.tcbs[p]) && m.s.tcbs[p].id == p && m.s.slots[p].Some?
    case Creating(_) => IsReady(m.s.tcbs[p]) && m.s.tcbs[p].id == p && m.s.slots[p].Some?
    case Marked => m.s.tcbs[p].status == Free && m.s.slots[p].Some?
    case Unlinked => m.s.tcbs[p].status == Free && m.s.slots[p].None?
  }

  /** The thread under construction at a pc is new, unpublished and nobody else's; a number
      read is not above numThreads. */
  ghost predicate CreatorOk(m: Machine, pc: Pc)
    requires Counted(m)
  {
    && (pc.Numbering? ==> pc.pid <= m.s.num)
    && (pc.Creating? ==>
      && pc.p < m.s.num && m.s.slots[pc.p].None? && m.pcs[pc.p] == Outside
      && m.s.tcbs[pc.p].status == Ready && m.s.tcbs[pc.p].id == pc.p)
  }

  /** What holds whoever is current. */
  ghost predicate Settled(m: Machine) {
    && Counted(m) && Agree(m.s)
    && (forall p :: 0 <= p < m.s.num ==> Bounded(m.s.tcbs[p]))
    && CreatorOk(m, m.boot)
    && (forall a :: 0 <= a < m.s.num ==> CreatorOk(m, m.pcs[a]))
    && (forall a, b :: 0 <= a < b < m.s.num && m.pcs[a].Creating? ==> m.pcs[a] != m.pcs[b])
  }

  ghost predicate Inv(m: Machine) {
    && Settled(m)
    && (if m.s.current.Some? then CurrentOk(m, m.s.current.value) && m.boot == Outside
        else (m.boot.Creating? || m.boot.Numbering? || m.boot.Outside?)
             && forall a :: 0 <= a < m.s.num ==> m.pcs[a] == Outside && m.s.tcbs[a].status == Ready)
    && (forall p :: 0 <= p < m.s.num && m.s.current != Some(p) ==> OtherOk(m, p))
  }

  lemma BootInv()
    ensures Inv(BOOT)
  {
  }

  lemma StepKeepsInv(m: Machine, e: Event)
    requires Inv(m) && Proper(m, e)
    ensures Inv(Step(m, e))
  {
    hide Inv, Settled, TaskSwitch, Here, SetHere;
    match e
    case Tick(esp) => TickKeepsInv(m, esp);
    case ZeroQuantum => ZeroKeepsInv(m);
    case SetPriority(p, priority) => PriorityKeepsInv(m, p, priority);
    case Kill => KillKeepsInv(m);
    case KillUnlink => UnlinkKeepsInv(m);
    case CreateRead => ReadKeepsInv(m);
    case CreateStore(base) => StoreKeepsInv(m, base);
    case CreatePublish => PublishKeepsInv(m);
    case StartScheduler => StartKeepsInv(m);
  }

  lemma ZeroKeepsInv(m: Machine)
    requires Inv(m) && Enabled(m, ZeroQuantum)
    ensures Inv(Step(m, ZeroQuantum))
  {
  }

  lemma PriorityKeepsInv(m: Machine, p: Ptr, priority: int)
    requires Inv(m) && Enabled(m, SetPriority(p, priority))
    ensures Inv(Step(m, SetPriority(p, priority)))
  {
  }

  lemma KillKeepsInv(m: Machine)
    requires Inv(m) && Enabled(m, Event.Kill)
    ensures Inv(Step(m, Event.Kill))
  {
  }

  lemma UnlinkAgrees(s: Sched)
    requires Typed(s) && s.current.Some? && Agree(s) && s.current.value == s.currentTask && s.slots[s.currentTask].Some?
    ensures Agree(SchedModel.Unlink(s))
  {
    var s' := SchedModel.Unlink(s);
    WithoutMembers(s.list, s.current.value);
    WithoutDistinct(s.list, s.current.value);
    forall p: nat ensures p in s'.list <==> p < |s'.slots| && s'.slots[p].Some? {
      assert p in s.list <==> p < |s.slots| && s.slots[p].Some?;
    }
  }

  lemma UnlinkKeepsInv(m: Machine)
    requires Inv(m) && Enabled(m, KillUnlink)
    ensures Inv(Step(m, KillUnlink))
  {
    var (c, m') := (m.s.current.value, Step(m, KillUnlink));
    UnlinkAgrees(m.s);
    hide Agree, Without;
    forall p | 0 <= p < m'.s.num && m'.s.current != Some(p) ensures OtherOk(m', p) {
      assert OtherOk(m, p);
    }
    forall a | 0 <= a < m'.s.num ensures CreatorOk(m', m'.pcs[a]) {
      assert CreatorOk(m, m.pcs[a]) && CurrentOk(m, c);
    }
  }

  lemma ReadKeepsInv(m: Machine)
    requires Inv(m) && Enabled(m, CreateRead)
    ensures Inv(Step(m, CreateRead))
  {
    hide Distinct, Agree;
    var m' := Step(m, CreateRead);
    forall p | 0 <= p < m'.s.num && m'.s.current != Some(p) ensures OtherOk(m', p) {
      assert OtherOk(m, p);
    }
    forall a | 0 <= a < m'.s.num ensures CreatorOk(m', m'.pcs[a]) {
      assert CreatorOk(m, m.pcs[a]);
    }
  }

  lemma StoreKeepsInv(m: Machine, base: word)
    requires Inv(m) && Proper(m, CreateStore(base))
    ensures Inv(Step(m, CreateStore(base)))
  {
    hide Distinct, OtherOk;
    var (n, m') := (m.s.num, Step(m, CreateStore(base)));
    forall p | 0 <= p < m'.s.num && m'.s.current != Some(p) ensures OtherOk(m', p) {
      StoreKeepsOther(m, base, p);
    }
    forall a | 0 <= a < m'.s.num ensures CreatorOk(m', m'.pcs[a]) {
      StoreKeepsCreator(m, base, a);
    }
  }

  lemma StoreKeepsOther(m: Machine, base: word, p: Ptr)
    requires Inv(m) && Proper(m, CreateStore(base)) && p <= m.s.num && m.s.current != Some(p)
    ensures OtherOk(Step(m, CreateStore(base)), p)
  {
    assert m.s.slots[m.s.num].None?;
    assert p < m.s.num ==> OtherOk(m, p);
  }

  lemma StoreKeepsCreator(m: Machine, base: word, a: Ptr)
    requires Inv(m) && Proper(m, CreateStore(base)) && a <= m.s.num
    ensures var m' := Step(m, CreateStore(base)); CreatorOk(m', m'.pcs[a])
  {
    assert m.s.slots[m.s.num].None?;
    assert a < m.s.num ==> CreatorOk(m, m.pcs[a]);
  }

  lemma PublishKeepsInv(m: Machine)
    requires Inv(m) && Enabled(m, CreatePublish)
    ensures Inv(Step(m, CreatePublish))
  {
    hide Bounded, IsReady;
    var (q, m') := (Here(m).p, Step(m, CreatePublish));
    assert CreatorOk(m, Here(m));
    forall p: nat ensures p in m'.s.list <==> p < |m'.s.slots| && m'.s.slots[p].Some? {
      assert p in m.s.list <==> p < |m.s.slots| && m.s.slots[p].Some?;
    }
    forall p | 0 <= p < m'.s.num && m'.s.current != Some(p) ensures OtherOk(m', p) {
      assert OtherOk(m, p);
    }
    forall a | 0 <= a < m'.s.num ensures CreatorOk(m', m'.pcs[a]) {
      assert CreatorOk(m, m.pcs[a]);
    }
  }

  lemma StartKeepsInv(m: Machine)
    requires Inv(m) && Enabled(m, StartScheduler)
    ensures Inv(Step(m, StartScheduler))
  {
    var m' := Step(m, StartScheduler);
    assert OtherOk(m, 0);
    forall p | 0 <= p < m'.s.num && m'.s.current != Some(p) ensures OtherOk(m', p) {
      assert OtherOk(m, p);
    }
    forall a | 0 <= a < m'.s.num ensures CreatorOk(m', m'.pcs[a]) {
      assert CreatorOk(m, m.pcs[a]);
    }
  }

  lemma TickKeepsInv(m: Machine, esp: word)
    requires Inv(m) && Enabled(m, Tick(esp))
    ensures Inv(Step(m, Tick(esp)))
  {
    if m.s.current.Some? {
      if m.s.tcbs[m.s.current.value].quantum > 0 {
        AccountKeepsInv(m);
      } else {
        var r := m.(s := Retire(m.s, esp));
        RetireParks(m, esp);
        var i := Scan(r.s).value;
        FirstBelow(r.s, r.s.currentTask, r.s.num);
        DispatchSettles(r, i);
      }
    }
  }

  lemma AccountKeepsInv(m: Machine)
    requires Inv(m) && m.s.current.Some? && m.s.tcbs[m.s.current.value].quantum > 0
    ensures Inv(m.(s := Account(m.s)))
  {
  }

  /** Between retiring one thread and dispatching the next, every thread is parked. */
  ghost predicate Parked(m: Machine) {
    Settled(m) && m.boot == Outside && forall p :: 0 <= p < m.s.num ==> OtherOk(m, p)
  }

  lemma RetireParks(m: Machine, esp: word)
    requires Inv(m) && m.s.current.Some?
    ensures Parked(m.(s := Retire(m.s, esp)))
  {
    var (c, m') := (m.s.current.value, m.(s := Retire(m.s, esp)));
    forall p | 0 <= p < m'.s.num ensures OtherOk(m', p) {
      assert if p == c then CurrentOk(m, p) else OtherOk(m, p);
    }
    forall a | 0 <= a < m'.s.num ensures CreatorOk(m', m'.pcs[a]) {
      assert CreatorOk(m, m.pcs[a]);
    }
  }

  lemma DispatchSettles(m: Machine, i: nat)
    requires Parked(m) && Runnable(m.s, i)
    ensures Inv(m.(s := Dispatch(m.s, i)))
  {
    var m' := m.(s := Dispatch(m.s, i));
    assert OtherOk(m, i);
    forall p | 0 <= p < m'.s.num && m'.s.current != Some(p) ensures OtherOk(m', p) {
      assert OtherOk(m, p);
    }
    forall a | 0 <= a < m'.s.num ensures CreatorOk(m', m'.pcs[a]) {
      assert CreatorOk(m, m.pcs[a]);
    }
  }

  // ----- whole runs -----

  /** The events can happen one after the other from m. */
  ghost predicate Plays(m: Machine, es: seq<Event>)
    decreases |es|
  {
    es == [] || (Shaped(m) && Enabled(m, es[0]) && Plays(Step(m, es[0]), es[1..]))
  }

  ghost function After(m: Machine, es: seq<Event>): Machine
    requires Plays(m, es)
    decreases |es|
  {
    if es == [] then m else After(Step(m, es[0]), es[1..])
  }

  /** No store of numThreads in the run loses another's. */
  ghost predicate Orderly(m: Machine, es: seq<Event>)
    requires Plays(m, es)
    decreases |es|
  {
    es == [] || (Fresh(m, es[0]) && Orderly(Step(m, es[0]), es[1..]))
  }

  /** Nobody stands between the read and the store of numThreads. */
  predicate NobodyNumbering(m: Machine) {
    !m.boot.Numbering? && forall a :: 0 <= a < |m.pcs| ==> !m.pcs[a].Numbering?
  }

  /** In the run nobody reads numThreads between another's read and store. */
  ghost predicate Serial(m: Machine, es: seq<Event>)
    requires Plays(m, es)
    decreases |es|
  {
    es == [] || ((es[0].CreateRead? ==> NobodyNumbering(m)) && Serial(Step(m, es[0]), es[1..]))
  }

  /** At most one creator has read numThreads, and it is as that creator read it. */
  ghost predicate Exclusive(m: Machine) {
    && (m.boot.Numbering? ==> m.boot.pid == m.s.num && forall a :: 0 <= a < |m.pcs| ==> !m.pcs[a].Numbering?)
    && (forall a :: 0 <= a < |m.pcs| && m.pcs[a].Numbering? ==> m.pcs[a].pid == m.s.num)
    && (forall a, b :: 0 <= a < b < |m.pcs| && m.pcs[a].Numbering? ==> !m.pcs[b].Numbering?)
  }

  lemma SerialStep(m: Machine, e: Event)
    requires Inv(m) && Exclusive(m) && Enabled(m, e) && (e.CreateRead? ==> NobodyNumbering(m))
    ensures Fresh(m, e) && Exclusive(Step(m, e))
  {
  }

  /** A creator that is alone between its read and its store loses nobody's. */
  lemma {:induction false} SerialIsOrderly(m: Machine, es: seq<Event>)
    requires Inv(m) && Exclusive(m) && Plays(m, es) && Serial(m, es)
    ensures Orderly(m, es) && Exclusive(After(m, es))
    decreases |es|
  {
    if es != [] {
      SerialStep(m, es[0]);
      StepKeepsInv(m, es[0]);
      SerialIsOrderly(Step(m, es[0]), es[1..]);
    }
  }

  /** Every orderly interleaving keeps the invariant. */
  lemma {:induction false} RunKeepsInv(m: Machine, es: seq<Event>)
    requires Inv(m) && Plays(m, es) && Orderly(m, es)
    ensures Inv(After(m, es))
    decreases |es|
  {
    if es != [] {
      StepKeepsInv(m, es[0]);
      RunKeepsInv(Step(m, es[0]), es[1..]);
    }
  }

  // ----- every run, stores of numThreads lost or not -----

  /** Before start_scheduler the boot code has been alone, and has lost no store. */
  ghost predicate Unstarted(m: Machine)
    requires Shaped(m)
  {
    && |m.s.tcbs| == m.s.num
    && (forall p :: 0 <= p < |m.s.tcbs| ==> m.s.tcbs[p].status == Ready && m.s.tcbs[p].id == p)
    && (forall i :: 0 <= i < MAX_THREADS && m.s.slots[i].Some? ==> m.s.slots[i].value == i)
    && (m.boot.Numbering? ==> m.boot.pid == m.s.num)
    && (m.boot.Creating? ==> m.boot.p < |m.s.tcbs|)
  }

  ghost predicate Sound(m: Machine) {
    && Shaped(m)
    && (forall p :: 0 <= p < |m.s.tcbs| && m.s.tcbs[p].status == Running ==> m.s.current == Some(p))
    && (forall p :: 0 <= p < |m.s.tcbs| ==> Bounded(m.s.tcbs[p]))
    && (if m.s.current.Some? then m.s.tcbs[m.s.current.value].status != Free else Unstarted(m))
  }

  lemma SoundShaped(m: Machine)
    requires Sound(m)
    ensures Shaped(m)
  {
  }

  lemma BootSound()
    ensures Sound(BOOT)
  {
  }

  lemma InvSound(m: Machine)
    requires Inv(m) && m.s.current.Some?
    ensures Sound(m)
  {
    forall p | 0 <= p < |m.s.tcbs| && m.s.tcbs[p].status == Running ensures m.s.current == Some(p) {
      assert m.s.current != Some(p) ==> OtherOk(m, p);
    }
  }

  lemma TickKeepsSound(m: Machine, esp: word)
    requires Sound(m) && Enabled(m, Tick(esp))
    ensures Sound(Step(m, Tick(esp)))
  {
    if m.s.current.Some? && m.s.tcbs[m.s.current.value].quantum == 0 {
      ScanBelow(Retire(m.s, esp));
      hide Scan;
    }
  }

  lemma StoreKeepsSound(m: Machine, base: word)
    requires Sound(m) && Enabled(m, CreateStore(base))
    ensures Sound(Step(m, CreateStore(base)))
  {
  }

  lemma StepKeepsSound(m: Machine, e: Event)
    requires Sound(m) && Enabled(m, e)
    ensures Sound(Step(m, e))
  {
    match e
    case Tick(esp) => TickKeepsSound(m, esp);
    case CreateStore(base) => StoreKeepsSound(m, base);
    case _ =>
  }

  lemma {:induction false} RunKeepsSound(m: Machine, es: seq<Event>)
    requires Sound(m) && Plays(m, es)
    ensures Sound(After(m, es))
    decreases |es|
  {
    if es != [] {
      StepKeepsSound(m, es[0]);
      RunKeepsSound(Step(m, es[0]), es[1..]);
    }
  }

  /** In every run since boot only the current thread is RUNNING. */
  lemma OnlyCurrentRuns(es: seq<Event>)
    requires Plays(BOOT, es)
    ensures var s := After(BOOT, es).s;
      && (s.current.Some? ==> s.current.value < |s.tcbs| && s.tcbs[s.current.value].status != Free)
      && (forall p :: 0 <= p < |s.tcbs| && s.tcbs[p].status == Running ==> s.current == Some(p))
  {
    BootSound();
    RunKeepsSound(BOOT, es);
  }

  /** At every interruptible point of every orderly run since boot: the list and the table name
      the same threads, once each, and only the current thread is RUNNING. */
  lemma AgreementAlways(es: seq<Event>)
    requires Plays(BOOT, es) && Orderly(BOOT, es)
    ensures var s := After(BOOT, es).s;
      && |s.slots| == 1024 && |s.tcbs| == s.num && Distinct(s.list)
      && (forall p: nat :: p in s.list <==> p < 1024 && s.slots[p] == Some(p))
      && (forall i :: 0 <= i < 1024 && s.slots[i].Some? ==> s.slots[i] == Some(i))
      && (forall p :: 0 <= p < s.num && s.tcbs[p].status == Running ==> s.current == Some(p))
  {
    BootInv();
    RunKeepsInv(BOOT, es);
    OnlyCurrentRuns(es);
  }

  ghost predicate Gone(m: Machine, p: Ptr) {
    p < |m.s.tcbs| && m.s.tcbs[p].status == Free && m.s.current != Some(p)
  }

  lemma TickKeepsGone(m: Machine, esp: word, p: Ptr)
    requires Sound(m) && Enabled(m, Tick(esp)) && Gone(m, p)
    ensures Gone(Step(m, Tick(esp)), p)
  {
    if m.s.current.Some? && m.s.tcbs[m.s.current.value].quantum == 0 {
      ScanBelow(Retire(m.s, esp));
    }
  }

  lemma StepKeepsGone(m: Machine, e: Event, p: Ptr)
    requires Sound(m) && Enabled(m, e) && Gone(m, p)
    ensures Gone(Step(m, e), p)
  {
    match e
    case Tick(esp) => TickKeepsGone(m, esp, p);
    case _ =>
  }

  lemma {:induction false} RunKeepsGone(m: Machine, es: seq<Event>, p: Ptr)
    requires Sound(m) && Gone(m, p) && Plays(m, es)
    ensures Gone(After(m, es), p)
    decreases |es|
  {
    if es != [] {
      StepKeepsSound(m, es[0]);
      StepKeepsGone(m, es[0], p);
      RunKeepsGone(Step(m, es[0]), es[1..], p);
    }
  }

  /** A thread reaped in a run since boot is never current again, whatever comes after. */
  lemma ReapedForever(es: seq<Event>, fs: seq<Event>, p: Ptr)
    requires Plays(BOOT, es) && Gone(After(BOOT, es), p) && Plays(After(BOOT, es), fs)
    ensures Gone(After(After(BOOT, es), fs), p)
  {
    BootSound();
    RunKeepsSound(BOOT, es);
    RunKeepsGone(After(BOOT, es), fs, p);
  }

  // ----- when the timer interrupt returns -----

  /** The scan can come to slot i: it goes round below numThreads, or, once it stands above,
      up the table. */
  predicate InReach(s: Sched, i: nat) {
    i < MAX_THREADS && if s.currentTask < s.num then i < s.num else i > s.currentTask
  }

  /** The thread in slot i can run when the current slice ends. */
  predicate CanRun(s: Sched, i: nat)
    requires Typed(s) && s.current.Some? && i < MAX_THREADS
  {
    && s.slots[i].Some?
    && var t := s.tcbs[s.slots[i].value];
       if s.slots[i] == s.current then t.status != Zombie else IsReady(t)
  }

  lemma {:induction false} AboveEndsIff(s: Sched, i: nat)
    requires Typed(s)
    ensures FirstAbove(s, i).Some? <==> exists j: nat :: j >= i && Dispatchable(s, j)
    decreases MAX_THREADS - i
  {
    if i < MAX_THREADS {
      AboveEndsIff(s, i + 1);
    }
  }

  /** Exactly when the timer interrupt comes back, in any state: the slice goes on, or the scan
      can come to a slot whose thread can run. */
  lemma TickReturnsIff(s: Sched, esp: word)
    requires Typed(s) && s.current.Some?
    ensures TaskSwitch(s, esp).Some? <==>
      s.tcbs[s.current.value].quantum > 0 || exists i: nat :: InReach(s, i) && CanRun(s, i)
  {
    var r := Retire(s, esp);
    assert forall i: nat :: i < MAX_THREADS ==> (Dispatchable(r, i) <==> CanRun(s, i));
    if s.currentTask < s.num {
      ScanEndsIff(r, r.currentTask);
      assert forall i: nat :: Runnable(r, i) <==> InReach(s, i) && CanRun(s, i);
    } else {
      AboveEndsIff(r, r.currentTask + 1);
      assert forall j: nat :: j >= r.currentTask + 1 && Dispatchable(r, j) <==> InReach(s, j) && CanRun(s, j);
    }
  }

  /** Some thread other than the current one could be dispatched. */
  ghost predicate AnotherReady(m: Machine)
    requires Counted(m)
  {
    exists p :: 0 <= p < m.s.num && m.s.current != Some(p) && m.s.slots[p].Some? && IsReady(m.s.tcbs[p])
  }

  /** In orderly runs it hangs only if the slice of a zombie has ended and nobody else can run. */
  lemma OrderlyTickReturnsIff(m: Machine, esp: word)
    requires Inv(m) && m.s.current.Some?
    ensures var t := m.s.tcbs[m.s.current.value];
      TaskSwitch(m.s, esp).Some? <==> t.quantum > 0 || t.status != Zombie || AnotherReady(m)
  {
    var c := m.s.current.value;
    assert CurrentOk(m, c);
    TickReturnsIff(m.s, esp);
    hide TaskSwitch, CreatorOk, Bounded, OtherOk, Distinct;
    if m.s.tcbs[c].status != Zombie {
      assert InReach(m.s, c) && CanRun(m.s, c);
    }
    if AnotherReady(m) {
      var p :| 0 <= p < m.s.num && m.s.current != Some(p) && m.s.slots[p].Some? && IsReady(m.s.tcbs[p]);
      assert InReach(m.s, p) && CanRun(m.s, p);
    }
    if i: nat :| InReach(m.s, i) && CanRun(m.s, i) {
      assert m.s.slots[i] == Some(i);
    }
  }

  // ----- the stack pointers of a run -----

  /** This tick takes the processor away from t and keeps t alive. */
  ghost predicate Suspends(m: Machine, e: Event, t: Ptr)
    requires Shaped(m)
  {
    && e.Tick? && m.s.current == Some(t)
    && m.s.tcbs[t].quantum == 0 && m.s.tcbs[t].status != Zombie
  }

  /** One event's part in it. */
  ghost function NextSaved(m: Machine, e: Event, t: Ptr, saved: word): word
    requires Shaped(m)
  {
    if Suspends(m, e, t) then e.esp
    else if e.CreateStore? && t == |m.s.tcbs| then Wrap(e.base + STACK_SIZE - FRAME_SIZE)
    else saved
  }

  /** The stack pointer t was last suspended with in the run, or its initial frame. */
  ghost function LastSaved(m: Machine, es: seq<Event>, t: Ptr, saved: word): word
    requires Plays(m, es)
    decreases |es|
  {
    if es == [] then saved else
    LastSaved(Step(m, es[0]), es[1..], t, NextSaved(m, es[0], t, saved))
  }

  ghost predicate Holds(m: Machine, t: Ptr, saved: word) {
    t < |m.s.tcbs| && m.s.tcbs[t].status != Free ==> m.s.tcbs[t].esp0 == saved
  }

  lemma TickSaves(m: Machine, esp: word, t: Ptr, saved: word)
    requires Sound(m) && Enabled(m, Tick(esp)) && Holds(m, t, saved)
    ensures Holds(Step(m, Tick(esp)), t, if Suspends(m, Tick(esp), t) then esp else saved)
  {
    if m.s.current.Some? && m.s.tcbs[m.s.current.value].quantum == 0 {
      ScanBelow(Retire(m.s, esp));
    }
  }

  lemma StepSaves(m: Machine, e: Event, t: Ptr, saved: word)
    requires Sound(m) && Enabled(m, e) && Holds(m, t, saved)
    ensures Holds(Step(m, e), t, NextSaved(m, e, t, saved))
  {
    if e.Tick? {
      TickSaves(m, e.esp, t, saved);
    }
  }

  lemma {:induction false} RunSaves(m: Machine, es: seq<Event>, t: Ptr, saved: word)
    requires Sound(m) && Plays(m, es) && Holds(m, t, saved)
    ensures Holds(After(m, es), t, LastSaved(m, es, t, saved))
    decreases |es|
  {
    if es != [] {
      hide Sound, Holds, Step, NextSaved, Enabled;
      StepKeepsSound(m, es[0]);
      StepSaves(m, es[0], t, saved);
      RunSaves(Step(m, es[0]), es[1..], t, NextSaved(m, es[0], t, saved));
    }
  }

  lemma {:induction false} PlaysSnoc(m: Machine, es: seq<Event>, e: Event)
    requires Plays(m, es + [e])
    ensures Plays(m, es) && Shaped(After(m, es)) && Enabled(After(m, es), e)
    ensures After(m, es + [e]) == Step(After(m, es), e)
    decreases |es|
  {
    if es == [] {
      assert ([] + [e])[1..] == [];
    } else {
      assert (es + [e])[1..] == es[1..] + [e];
      PlaysSnoc(Step(m, es[0]), es[1..], e);
    }
  }

  /** Whenever a tick switches to t it returns the stack pointer t was last suspended
      with, however the run got there, or t's initial frame if it never ran. */
  lemma DispatchReturnsLastSaved(es: seq<Event>, esp: word, t: Ptr)
    requires Plays(BOOT, es + [Tick(esp)])
    ensures Plays(BOOT, es) && Shaped(After(BOOT, es))
    ensures var s := After(BOOT, es).s;
      && TaskSwitch(s, esp).Some?
      && (s.current.Some? && s.tcbs[s.current.value].quantum == 0 && TaskSwitch(s, esp).value.0.current == Some(t)
          ==> TaskSwitch(s, esp).value.1 == LastSaved(BOOT, es + [Tick(esp)], t, 0))
  {
    PlaysSnoc(BOOT, es, Tick(esp));
    BootSound();
    RunKeepsSound(BOOT, es);
    RunSaves(BOOT, es + [Tick(esp)], t, 0);
    var s := After(BOOT, es).s;
    if s.current.Some? && s.tcbs[s.current.value].quantum == 0 {
      ScanBelow(Retire(s, esp));
    }
  }
}
