/** What the unprotected numThreads++ of alloc_pid costs.

    Over all runs, lost stores included, the thread list and the slot table agree exactly as
    long as every thread is published into an empty slot.  Reading numThreads is safe exactly
    when nobody else stands between reading and storing it: otherwise the two creators can go
    on to share a number, and the second to publish evicts the first from the table.
 */
module SchedOverlap {
  import opened Words
  import opened Sequences
  import opened SchedModel
  import opened SchedMachine
  import opened SchedFairness

  /** The list and the table name the same threads, wherever in the table they are. */
  ghost predicate SameThreads(s: Sched) {
    && (forall p :: p in s.list ==> Some(p) in s.slots)
    && (forall i :: 0 <= i < |s.slots| && s.slots[i].Some? ==> s.slots[i].value in s.list)
    && (forall i, j :: 0 <= i < j < |s.slots| && s.slots[i].Some? ==> s.slots[i] != s.slots[j])
  }

  /** The store of create_kernel_thread keeps table and list in agreement exactly when
      the slot named by the thread's id is still empty. */
  lemma PublishAgreesIff(s: Sched, p: Ptr)
    requires Typed(s) && SameThreads(s) && p < |s.tcbs| && s.tcbs[p].id < MAX_THREADS && p !in s.list
    ensures SameThreads(Publish(s, p)) <==> s.slots[s.tcbs[p].id].None?
  {
    var (s', k) := (Publish(s, p), s.tcbs[p].id);
    if s.slots[k].Some? {
      var q := s.slots[k].value;
      assert q in s'.list && forall i :: 0 <= i < MAX_THREADS ==> s'.slots[i] != Some(q);
    } else {
      forall q | q in s'.list ensures Some(q) in s'.slots {
        if q == p {
          assert s'.slots[k] == Some(p);
        } else {
          var i :| 0 <= i < MAX_THREADS && s.slots[i] == Some(q);
          assert s'.slots[i] == Some(q);
        }
      }
    }
  }

  lemma InvAgrees(m: Machine)
    requires Inv(m)
    ensures SameThreads(m.s)
  {
    forall p | p in m.s.list ensures Some(p) in m.s.slots {
      assert m.s.slots[p] == Some(p);
    }
  }

  // ----- all runs -----

  /** What is left of the invariant when stores of numThreads may be lost. */
  ghost predicate Loose(m: Machine) {
    && Shaped(m) && SameThreads(m.s)
    && (m.s.current.Some? && !m.pcs[m.s.current.value].Unlinked? ==> m.s.slots[m.s.currentTask] == m.s.current)
    && (forall p :: 0 <= p < |m.pcs| && m.pcs[p].Unlinked? ==> p !in m.s.list)
    && Unpublished(m, m.boot) && (forall a :: 0 <= a < |m.pcs| ==> Unpublished(m, m.pcs[a]))
    && (forall a :: 0 <= a < |m.pcs| && m.pcs[a].Creating? ==> m.pcs[a] != m.boot)
    && (forall a, b :: 0 <= a < b < |m.pcs| && m.pcs[a].Creating? ==> m.pcs[a] != m.pcs[b])
  }

  ghost predicate Unpublished(m: Machine, pc: Pc)
    requires Shaped(m)
  {
    pc.Creating? ==> pc.p < |m.pcs| && pc.p !in m.s.list && m.pcs[pc.p].Outside?
  }

  /** The event publishes into an empty slot, if it publishes. */
  ghost predicate Clear(m: Machine, e: Event)
    requires Shaped(m) && Enabled(m, e)
  {
    e.CreatePublish? ==> m.s.slots[m.s.tcbs[Here(m).p].id].None?
  }

  ghost predicate AllClear(m: Machine, es: seq<Event>)
    requires Plays(m, es)
    decreases |es|
  {
    es == [] || (Clear(m, es[0]) && AllClear(Step(m, es[0]), es[1..]))
  }

  /** List and table agree at every point of the run. */
  ghost predicate AgreesThroughout(m: Machine, es: seq<Event>)
    requires Plays(m, es)
    decreases |es|
  {
    SameThreads(m.s) && (es == [] || AgreesThroughout(Step(m, es[0]), es[1..]))
  }

  lemma UnlinkLoose(m: Machine)
    requires Loose(m) && Enabled(m, KillUnlink)
    ensures Loose(Step(m, KillUnlink))
  {
    var (c, m') := (m.s.current.value, Step(m, KillUnlink));
    WithoutMembers(m.s.list, c);
    forall p | p in m'.s.list ensures Some(p) in m'.s.slots {
      var i :| 0 <= i < MAX_THREADS && m.s.slots[i] == Some(p);
      assert m'.s.slots[i] == Some(p);
    }
  }

  lemma PublishLoose(m: Machine)
    requires Loose(m) && Enabled(m, CreatePublish)
    ensures SameThreads(Step(m, CreatePublish).s) <==> Clear(m, CreatePublish)
    ensures Clear(m, CreatePublish) ==> Loose(Step(m, CreatePublish))
  {
    assert Unpublished(m, Here(m));
    PublishAgreesIff(m.s, Here(m).p);
    if Clear(m, CreatePublish) {
      var m' := Step(m, CreatePublish);
      forall a | 0 <= a < |m'.pcs| ensures Unpublished(m', m'.pcs[a]) {
        assert Unpublished(m, m.pcs[a]);
      }
    }
  }

  lemma TickLoose(m: Machine, esp: word)
    requires Loose(m) && Enabled(m, Tick(esp))
    ensures Loose(Step(m, Tick(esp)))
  {
    if m.s.current.Some? && m.s.tcbs[m.s.current.value].quantum == 0 {
      var r := Retire(m.s, esp);
      FirstBelow(r, r.currentTask, r.num);
    }
  }

  lemma StepLoose(m: Machine, e: Event)
    requires Loose(m) && Enabled(m, e) && !e.CreatePublish?
    ensures Loose(Step(m, e))
  {
    hide Loose;
    match e
    case Tick(esp) => TickLoose(m, esp);
    case KillUnlink => UnlinkLoose(m);
    case CreateRead => ReadLoose(m);
    case CreateStore(base) => StoreLoose(m, base);
    case Kill => KillLoose(m);
    case StartScheduler => StartLoose(m);
    case ZeroQuantum => ZeroLoose(m);
    case SetPriority(p, priority) => PriorityLoose(m, p, priority);
  }

  lemma ReadLoose(m: Machine)
    requires Loose(m) && Enabled(m, CreateRead)
    ensures Loose(Step(m, CreateRead))
  {
  }

  lemma StoreLoose(m: Machine, base: word)
    requires Loose(m) && Enabled(m, CreateStore(base))
    ensures Loose(Step(m, CreateStore(base)))
  {
    var (n, m') := (|m.s.tcbs|, Step(m, CreateStore(base)));
    assert SameThreads(m'.s);
    assert n !in m.s.list;
    hide SameThreads;
    forall a | 0 <= a < |m'.pcs| ensures Unpublished(m', m'.pcs[a]) {
      assert a < n ==> Unpublished(m, m.pcs[a]);
    }
  }

  lemma KillLoose(m: Machine)
    requires Loose(m) && Enabled(m, Event.Kill)
    ensures Loose(Step(m, Event.Kill))
  {
  }

  lemma StartLoose(m: Machine)
    requires Loose(m) && Enabled(m, StartScheduler)
    ensures Loose(Step(m, StartScheduler))
  {
  }

  lemma ZeroLoose(m: Machine)
    requires Loose(m) && Enabled(m, ZeroQuantum)
    ensures Loose(Step(m, ZeroQuantum))
  {
  }

  lemma PriorityLoose(m: Machine, p: Ptr, priority: int)
    requires Loose(m) && Enabled(m, SetPriority(p, priority))
    ensures Loose(Step(m, SetPriority(p, priority)))
  {
  }

  lemma {:induction false} RunAgreesIff(m: Machine, es: seq<Event>)
    requires Loose(m) && Plays(m, es)
    ensures AgreesThroughout(m, es) <==> AllClear(m, es)
    decreases |es|
  {
    hide Loose, SameThreads, Clear, Enabled, Step;
    LooseAgrees(m);
    if es != [] {
      if es[0].CreatePublish? {
        PublishLoose(m);
        if Clear(m, es[0]) {
          RunAgreesIff(Step(m, es[0]), es[1..]);
        }
      } else {
        StepLoose(m, es[0]);
        NothingPublished(m, es[0]);
        RunAgreesIff(Step(m, es[0]), es[1..]);
      }
    }
  }

  lemma LooseAgrees(m: Machine)
    requires Loose(m)
    ensures SameThreads(m.s)
  {
  }

  lemma NothingPublished(m: Machine, e: Event)
    requires Shaped(m) && Enabled(m, e) && !e.CreatePublish?
    ensures Clear(m, e)
  {
  }

  /** In any run since boot, whatever stores of numThreads were lost in it, the list and the
      table agree at every point if and only if every thread was published into an empty
      slot. */
  lemma AgreesThroughoutIff(es: seq<Event>)
    requires Plays(BOOT, es)
    ensures AgreesThroughout(BOOT, es) <==> AllClear(BOOT, es)
  {
    RunAgreesIff(BOOT, es);
  }

  lemma {:induction false} OrderlyAgrees(m: Machine, es: seq<Event>)
    requires Inv(m) && Plays(m, es) && Orderly(m, es)
    ensures AgreesThroughout(m, es)
    decreases |es|
  {
    hide Inv, SameThreads, Enabled, Fresh, Step;
    InvAgrees(m);
    if es != [] {
      StepKeepsInv(m, es[0]);
      OrderlyAgrees(Step(m, es[0]), es[1..]);
    }
  }

  /** Serial runs since boot agree at every point. */
  lemma SerialAgrees(es: seq<Event>)
    requires Plays(BOOT, es) && Serial(BOOT, es)
    ensures Orderly(BOOT, es) && AgreesThroughout(BOOT, es)
  {
    BootInv();
    SerialIsOrderly(BOOT, es);
    OrderlyAgrees(BOOT, es);
  }

  // ----- which reads are safe -----

  lemma {:induction false} PlaysConcat(m: Machine, es: seq<Event>, fs: seq<Event>)
    requires Plays(m, es) && Plays(After(m, es), fs)
    ensures Plays(m, es + fs) && After(m, es + fs) == After(After(m, es), fs)
    ensures Serial(m, es + fs) <==> Serial(m, es) && Serial(After(m, es), fs)
    ensures Orderly(m, es + fs) <==> Orderly(m, es) && Orderly(After(m, es), fs)
    decreases |es|
  {
    if es == [] {
      assert es + fs == fs;
    } else {
      assert (es + fs)[1..] == es[1..] + fs;
      PlaysConcat(Step(m, es[0]), es[1..], fs);
    }
  }

  /** Ticks alone bring a waiting thread to the processor; they change neither the table nor
      what anybody is doing. */
  lemma TicksDispatch(m: Machine, t: Ptr) returns (es: seq<Event>)
    requires Inv(m) && Waiting(m, t)
    ensures Plays(m, es) && Serial(m, es) && Inv(After(m, es)) && After(m, es).s.current == Some(t)
    ensures var m' := After(m, es); m'.s.slots == m.s.slots && m'.s.num == m.s.num && m'.pcs == m.pcs && m'.boot == m.boot
  {
    WaitingServed(m, t);
    es := TicksReach(m, t, t);
    TicksAreSerial(m, es);
    RunKeepsInv(m, es);
  }

  lemma {:induction false} TicksAreSerial(m: Machine, es: seq<Event>)
    requires Plays(m, es) && OnlyTicks(es)
    ensures Serial(m, es) && Orderly(m, es)
    decreases |es|
  {
    hide Shaped, Enabled, Step;
    if es != [] {
      TicksAreSerial(Step(m, es[0]), es[1..]);
    }
  }

  /** Numbering and publishing in one go. */
  lemma PublishNow(m: Machine)
    requires Inv(m) && m.s.current.Some? && Here(m).Numbering? && Here(m).pid < MAX_THREADS
    ensures var es := [CreateStore(0), CreatePublish]; Plays(m, es) && Serial(m, es)
    ensures var (n, m') := (Here(m).pid, After(m, [CreateStore(0), CreatePublish]));
      && m' == Step(Step(m, CreateStore(0)), CreatePublish) && m'.s == Publish(NewThread(m.s, n, 0), |m.s.tcbs|)
      && m'.pcs == m.pcs[m.s.current.value := Outside] + [Outside] && m'.boot == m.boot
  {
    var es := [CreateStore(0), CreatePublish];
    assert es[1..] == [CreatePublish] && [CreatePublish][1..] == [];
  }

  /** A creator that reads numThreads while another is between read and store: both can go on
      to the same number, and the table loses a listed thread. */
  lemma OverlapBreaks(m: Machine, a: Ptr) returns (fs: seq<Event>)
    requires Inv(m) && Enabled(m, CreateRead) && m.s.current.Some?
    requires a < |m.pcs| && m.pcs[a].Numbering? && m.pcs[a].pid == m.s.num
    ensures var m1 := Step(m, CreateRead); Plays(m1, fs) && Serial(m1, fs) && !SameThreads(After(m1, fs).s)
  {
    var (c, n, m1) := (m.s.current.value, m.s.num, Step(m, CreateRead));
    assert CurrentOk(m, c) && OtherOk(m, a);
    StepKeepsInv(m, CreateRead);
    var store := [CreateStore(0), CreatePublish];
    PublishNow(m1);
    var m2 := After(m1, store);
    FirstPublished(m1);
    assert Waiting(m2, a);
    var ticks := TicksDispatch(m2, a);
    var m3 := After(m2, ticks);
    PublishNow(m3);
    SecondEvicts(m3, n);
    PlaysConcat(m1, store, ticks);
    PlaysConcat(m1, store + ticks, store);
    fs := store + ticks + store;
  }

  lemma FirstPublished(m: Machine)
    requires Inv(m) && m.s.current.Some? && Here(m).Numbering? && Here(m).pid == m.s.num < MAX_THREADS
    ensures Plays(m, [CreateStore(0), CreatePublish])
    ensures var m' := After(m, [CreateStore(0), CreatePublish]);
      && Inv(m') && m'.s.slots == m.s.slots[m.s.num := Some(m.s.num)] && m'.s.num == m.s.num + 1
  {
    PublishNow(m);
    StepKeepsInv(m, CreateStore(0));
    StepKeepsInv(Step(m, CreateStore(0)), CreatePublish);
  }

  lemma SecondEvicts(m: Machine, n: nat)
    requires Inv(m) && m.s.current.Some? && Here(m) == Numbering(n) && n < MAX_THREADS && m.s.slots[n].Some?
    ensures Plays(m, [CreateStore(0), CreatePublish])
    ensures !SameThreads(After(m, [CreateStore(0), CreatePublish]).s)
  {
    PublishNow(m);
    InvAgrees(m);
    var s := NewThread(m.s, n, 0);
    assert |m.s.tcbs| !in s.list;
    PublishAgreesIff(s, |m.s.tcbs|);
  }

  /** After a serial run, a creator may read numThreads if and only if nobody is between reading
      and storing it: exactly then every serial continuation keeps list and table in agreement. */
  lemma ReadSafeIff(es: seq<Event>)
    requires Plays(BOOT, es) && Serial(BOOT, es) && Shaped(After(BOOT, es)) && Enabled(After(BOOT, es), CreateRead)
    ensures var m := After(BOOT, es); var m1 := Step(m, CreateRead);
      (forall fs :: Plays(m1, fs) && Serial(m1, fs) ==> SameThreads(After(m1, fs).s)) <==> NobodyNumbering(m)
  {
    BootInv();
    SerialIsOrderly(BOOT, es);
    RunKeepsInv(BOOT, es);
    var m := After(BOOT, es);
    var m1 := Step(m, CreateRead);
    StepKeepsInv(m, CreateRead);
    if NobodyNumbering(m) {
      SerialStep(m, CreateRead);
      forall fs | Plays(m1, fs) && Serial(m1, fs) ensures SameThreads(After(m1, fs).s) {
        SerialIsOrderly(m1, fs);
        RunKeepsInv(m1, fs);
        InvAgrees(After(m1, fs));
      }
    } else {
      assert m.s.current.Some? && m.boot.Outside?;
      var a :| 0 <= a < |m.pcs| && m.pcs[a].Numbering?;
      var fs := OverlapBreaks(m, a);
    }
  }

  const CREATE: seq<Event> := [CreateRead, CreateStore(0), CreatePublish]

  lemma ThreeSteps(m: Machine, a: Event, b: Event, c: Event)
    requires Shaped(m) && Enabled(m, a)
    requires Shaped(Step(m, a)) && Enabled(Step(m, a), b)
    requires var m2 := Step(Step(m, a), b); Shaped(m2) && Enabled(m2, c)
    ensures Plays(m, [a, b, c]) && After(m, [a, b, c]) == Step(Step(Step(m, a), b), c)
    ensures Fresh(m, a) && Fresh(Step(m, a), b) && Fresh(Step(Step(m, a), b), c) ==> Orderly(m, [a, b, c])
  {
    hide Shaped, Enabled, Step, Fresh;
    assert [a, b, c][1..] == [b, c] && [b, c][1..] == [c] && [c][1..] == [];
    var (m1, m2) := (Step(m, a), Step(Step(m, a), b));
    assert Plays(m2, [c]) && After(m2, [c]) == Step(m2, c) && (Fresh(m2, c) ==> Orderly(m2, [c]));
    assert Plays(m1, [b, c]) && After(m1, [b, c]) == Step(m2, c) && (Fresh(m1, b) && Fresh(m2, c) ==> Orderly(m1, [b, c]));
  }

  /** create_kernel_thread without interruption. */
  lemma CreateNow(m: Machine)
    requires Inv(m) && Enabled(m, CreateRead)
    ensures Plays(m, CREATE) && Orderly(m, CREATE) && Inv(After(m, CREATE))
    ensures var m' := After(m, CREATE);
      && m'.s.num == m.s.num + 1 && m'.s.current == m.s.current && m'.boot == m.boot && m'.pcs == m.pcs + [Outside]
      && m'.s.slots == m.s.slots[m.s.num := Some(m.s.num)]
  {
    hide Inv, Enabled, Shaped, Step, Here;
    ReadNow(m);
    var m1 := Step(m, CreateRead);
    StepKeepsInv(m, CreateRead);
    StoreNow(m1);
    var m2 := Step(m1, CreateStore(0));
    StepKeepsInv(m1, CreateStore(0));
    StepKeepsInv(m2, CreatePublish);
    assert Fresh(m, CreateRead) && Fresh(m1, CreateStore(0)) && Fresh(m2, CreatePublish);
    ThreeSteps(m, CreateRead, CreateStore(0), CreatePublish);
  }

  lemma ReadNow(m: Machine)
    requires Inv(m) && Enabled(m, CreateRead)
    ensures var m1 := Step(m, CreateRead);
      && Shaped(m) && Proper(m, CreateRead) && Shaped(m1) && m1.s == m.s && Here(m1) == Numbering(m.s.num) && Proper(m1, CreateStore(0))
      && m.pcs == (if m.s.current.Some? then m1.pcs[m.s.current.value := Outside] else m1.pcs)
      && m.boot == if m.s.current.Some? then m1.boot else Outside
  {
  }

  lemma StoreNow(m: Machine)
    requires Inv(m) && Proper(m, CreateStore(0))
    ensures var m2 := Step(m, CreateStore(0));
      && Shaped(m2) && Proper(m2, CreatePublish)
      && var m3 := Step(m2, CreatePublish);
        && m3.s.num == m.s.num + 1 && m3.s.current == m.s.current && m3.s.slots == m.s.slots[m.s.num := Some(m.s.num)]
        && m3.pcs == (if m.s.current.Some? then m.pcs[m.s.current.value := Outside] else m.pcs) + [Outside]
        && m3.boot == if m.s.current.Some? then m.boot else Outside
  {
  }

  /** The first of two threads reads numThreads, and the timer lets the second go on. */
  lemma StartReadTick(m: Machine)
    requires Inv(m) && Enabled(m, StartScheduler) && m.s.num == 2 && m.s.slots[1].Some?
    ensures var es := [StartScheduler, CreateRead, Tick(0)];
      && Plays(m, es) && Orderly(m, es) && Inv(After(m, es)) && After(m, es).s.current == Some(1) && After(m, es).s.num == 2
      && After(m, es).pcs == [Numbering(2), Outside]
  {
    var m1 := Step(m, StartScheduler);
    var m2 := Step(m1, CreateRead);
    StartNow(m);
    StepKeepsInv(m, StartScheduler);
    StepKeepsInv(m1, CreateRead);
    hide Inv, OtherOk, CurrentOk, Settled;
    WaitingServed(m2, 1);
    TickProgress(m2, 0, 1, 1, 2);
    StepKeepsInv(m2, Tick(0));
    ThreeSteps(m, StartScheduler, CreateRead, Tick(0));
  }

  lemma StartNow(m: Machine)
    requires Inv(m) && Enabled(m, StartScheduler) && m.s.num == 2 && m.s.slots[1].Some?
    ensures var m1 := Step(m, StartScheduler);
      && Shaped(m1) && Enabled(m1, CreateRead) && m1.s.current == Some(0)
      && var m2 := Step(m1, CreateRead);
        Waiting(m2, 1) && m2.pcs == [Numbering(2), Outside] && m2.s.num == 2 && m2.s.currentTask == 0
        && Patience(m2, 1, 2) == 1
  {
    assert m.s.slots[0] == Some(0) && m.s.slots[1] == Some(1) && OtherOk(m, 1);
    assert m.pcs == [Outside, Outside];
  }

  /** The boot code makes two threads, the first reads numThreads, and before it stores it the
      timer interrupt gives the second the processor. */
  lemma ReadersMeet() returns (es: seq<Event>)
    ensures Plays(BOOT, es) && Orderly(BOOT, es)
    ensures var m := After(BOOT, es);
      Inv(m) && Shaped(m) && Enabled(m, CreateRead) && m.s.current == Some(1) && m.s.num == 2 && m.pcs == [Numbering(2), Outside]
  {
    hide Inv, Enabled, Step, Shaped, Fresh;
    FirstEvents();
    var m2 := After(BOOT, CREATE + CREATE);
    var start := [StartScheduler, CreateRead, Tick(0)];
    StartReadTick(m2);
    PlaysConcat(BOOT, CREATE + CREATE, start);
    SecondMayRead(After(m2, start));
    es := CREATE + CREATE + start;
  }

  lemma FirstEvents()
    ensures Plays(BOOT, CREATE + CREATE) && Orderly(BOOT, CREATE + CREATE)
    ensures var m := After(BOOT, CREATE + CREATE);
      Inv(m) && Shaped(m) && Enabled(m, StartScheduler) && m.s.num == 2 && m.s.slots[1].Some?
  {
    BootInv();
    CreateNow(BOOT);
    var m1 := After(BOOT, CREATE);
    CreateNow(m1);
    PlaysConcat(BOOT, CREATE, CREATE);
  }

  lemma SecondMayRead(m: Machine)
    requires Inv(m) && m.s.current == Some(1) && m.s.num == 2 && m.pcs == [Numbering(2), Outside]
    ensures Shaped(m) && Enabled(m, CreateRead)
  {
  }

  /** A run that loses a thread from the table is reachable: the second thread reads numThreads
      before the first has stored it, and both go on. */
  lemma ReachableDisagreement() returns (es: seq<Event>)
    ensures Plays(BOOT, es) && !SameThreads(After(BOOT, es).s)
  {
    hide Inv, Enabled, Step, Shaped, Fresh;
    var front := ReadersMeet();
    var m := After(BOOT, front);
    var fs := OverlapBreaks(m, 0);
    assert ([CreateRead] + fs)[1..] == fs;
    PlaysConcat(BOOT, front, [CreateRead] + fs);
    es := front + ([CreateRead] + fs);
  }

  /** Overlapping reads alone do no harm yet: they have to be stored and published. */
  lemma OverlapMayAgree() returns (es: seq<Event>)
    ensures Plays(BOOT, es) && !Serial(BOOT, es) && AgreesThroughout(BOOT, es)
  {
    hide Inv, Enabled, Step, Shaped;
    var front := ReadersMeet();
    var m := After(BOOT, front);
    assert [CreateRead][1..] == [] && m.pcs[0].Numbering?;
    PlaysConcat(BOOT, front, [CreateRead]);
    es := front + [CreateRead];
    BootInv();
    OrderlyAgrees(BOOT, es);
  }

  // ----- what a lost store does to waiting -----

  /** The second thread makes two more, and the first gets the processor back. */
  lemma TwoMore(m: Machine) returns (es: seq<Event>)
    requires Inv(m) && Shaped(m) && Enabled(m, CreateRead)
    requires m.s.current == Some(1) && m.s.num == 2 && m.pcs == [Numbering(2), Outside]
    ensures Plays(m, es) && Inv(After(m, es)) && After(m, es).s.current == Some(0) && After(m, es).s.num == 4
    ensures After(m, es).pcs == [Numbering(2), Outside, Outside, Outside] && After(m, es).s.slots[3] == Some(3)
  {
    CreateNow(m);
    var m1 := After(m, CREATE);
    MayReadAgain(m1);
    CreateNow(m1);
    var m2 := After(m1, CREATE);
    FirstWaits(m2);
    var ticks := TicksDispatch(m2, 0);
    hide Inv, Enabled, Shaped;
    PlaysConcat(m, CREATE, CREATE);
    PlaysConcat(m, CREATE + CREATE, ticks);
    es := CREATE + CREATE + ticks;
  }

  lemma MayReadAgain(m: Machine)
    requires Inv(m) && m.s.current == Some(1) && m.s.num == 3 && m.pcs == [Numbering(2), Outside, Outside]
    ensures Shaped(m) && Enabled(m, CreateRead)
  {
  }

  lemma FirstWaits(m: Machine)
    requires Inv(m) && m.s.current == Some(1) && m.s.num == 4 && m.pcs == [Numbering(2), Outside, Outside, Outside]
    ensures Counted(m) && Waiting(m, 0)
  {
    assert OtherOk(m, 0);
  }

  /** The first thread's store of 3 leaves the last thread above numThreads. */
  lemma StoreStrands(m: Machine)
    requires Inv(m) && m.s.current == Some(0) && m.s.num == 4 && m.s.slots[3] == Some(3)
    requires m.pcs == [Numbering(2), Outside, Outside, Outside]
    ensures Shaped(m) && Enabled(m, CreateStore(0))
    ensures var m' := Step(m, CreateStore(0));
      && Sound(m') && Rolling(m') && m'.s.current == Some(0) && OutOfReach(m'.s, 3)
      && 3 < |m'.s.tcbs| && 3 < |m'.s.slots| && 3 in m'.s.list && m'.s.slots[3] == Some(3) && IsReady(m'.s.tcbs[3])
  {
    InvSound(m);
    StepKeepsSound(m, CreateStore(0));
    assert CurrentOk(m, 0) && OtherOk(m, 3);
  }

  /** A run since boot with a lost store after which a listed thread, ready in its own slot, is
      never dispatched again by the timer, though the timer goes on for ever. */
  lemma LostStoreStarves() returns (es: seq<Event>, t: Ptr)
    ensures Plays(BOOT, es)
    ensures var m := After(BOOT, es);
      && t < |m.s.tcbs| && t < |m.s.slots| && t in m.s.list && m.s.slots[t] == Some(t) && IsReady(m.s.tcbs[t])
      && forall fs :: OnlyTicks(fs) ==> Plays(m, fs) && After(m, fs).s.current != Some(t)
  {
    hide Inv, Enabled, Step, Shaped, Fresh, Sound, Rolling, OutOfReach;
    var front := ReadersMeet();
    var m := After(BOOT, front);
    var more := TwoMore(m);
    var m1 := After(m, more);
    StoreStrands(m1);
    PlaysConcat(BOOT, front, more);
    StoreAlone(m1);
    PlaysConcat(BOOT, front + more, [CreateStore(0)]);
    es, t := front + more + [CreateStore(0)], 3;
    var m2 := After(BOOT, es);
    assert m2 == Step(m1, CreateStore(0));
    SoundShaped(m2);
    forall fs | OnlyTicks(fs) ensures Plays(m2, fs) && After(m2, fs).s.current != Some(t) {
      TicksRoll(m2, fs);
      TicksStayOut(m2, fs, t);
    }
  }

  lemma StoreAlone(m: Machine)
    requires Shaped(m) && Enabled(m, CreateStore(0))
    ensures Plays(m, [CreateStore(0)]) && After(m, [CreateStore(0)]) == Step(m, CreateStore(0))
  {
    assert [CreateStore(0)][1..] == [];
  }
}
