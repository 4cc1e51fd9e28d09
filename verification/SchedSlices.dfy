/** How long a thread keeps the processor.

    Everything here is said of priorities, ticks and the numbers in a thread's struct: a slice
    is 64 - priority ticks long, nice sets the length of the next slice, yield ends the
    current one, and exactly one tick in 65 - priority goes through the scan.
 */
module SchedSlices {
  import opened Words
  import opened SchedModel
  import opened SchedMachine
  import opened SchedFairness

  /** The slice of thread t has ended: t is reaped or saved, whoever is current now is in its slot
      and has a slice of its own, and nothing else has changed. */
  ghost predicate SliceEnded(s: Sched, s': Sched, t: Ptr, esp: word) {
    && t < |s.tcbs| == |s'.tcbs| && s'.current.Some? && s'.current.value < |s'.tcbs|
    && s'.tcbs[s'.current.value].quantum as int == 64 - s'.tcbs[s'.current.value].priority
    && s'.tcbs[s'.current.value].status == Running
    && s'.tcbs[t].time == (if s.tcbs[t].status == Zombie then s.tcbs[t].time else Wrap(s.tcbs[t].time + 1))
    && s'.tcbs[t].esp0 == (if s.tcbs[t].status == Zombie then s.tcbs[t].esp0base else esp)
    && s'.tcbs[t].id == (if s.tcbs[t].status == Zombie then 0 else s.tcbs[t].id)
    && (s'.current != Some(t) ==> s'.tcbs[t].status == if s.tcbs[t].status == Zombie then Free else Wait)
    && (s'.current == Some(t) ==> s.tcbs[t].status != Zombie)
    && (forall p :: 0 <= p < |s.tcbs| && p != t && s'.current != Some(p) ==> s'.tcbs[p] == s.tcbs[p])
    && (s'.current != Some(t) ==>
      s'.tcbs[s'.current.value] == s.tcbs[s'.current.value].(quantum := s'.tcbs[s'.current.value].quantum, status := Running))
    && s'.tcbs[t].priority == s.tcbs[t].priority && s'.tcbs[t].esp0base == s.tcbs[t].esp0base
    && s'.slots == s.slots && s'.list == s.list && s'.num == s.num
    && s'.currentTask < |s.slots| && s.slots[s'.currentTask] == s'.current
  }

  /** A tick that finds the quantum 0 ends the slice. */
  lemma SwitchEndsSlice(m: Machine, esp: word)
    requires Sound(m) && m.s.current.Some? && m.s.tcbs[m.s.current.value].quantum == 0 && Enabled(m, Tick(esp))
    ensures SliceEnded(m.s, Step(m, Tick(esp)).s, m.s.current.value, esp)
  {
    var r := Retire(m.s, esp);
    ScanBelow(r);
    hide Scan;
    var q := r.slots[Scan(r).value].value;
    assert Bounded(m.s.tcbs[q]);
  }

  /** The machine after k ticks inside the current slice. */
  ghost function Ticked(m: Machine, k: nat): Machine
    requires Shaped(m) && m.s.current.Some? && k <= m.s.tcbs[m.s.current.value].quantum
  {
    var (c, t) := (m.s.current.value, m.s.tcbs[m.s.current.value]);
    m.(s := m.s.(tcbs := m.s.tcbs[c := t.(time := Wrap(t.time + k), quantum := t.quantum - k)]))
  }

  lemma TickInside(m: Machine, esp: word)
    requires Shaped(m) && m.s.current.Some? && m.s.tcbs[m.s.current.value].quantum > 0
    ensures Enabled(m, Tick(esp)) && Step(m, Tick(esp)) == Ticked(m, 1) && Shaped(Ticked(m, 1))
  {
  }

  lemma TickedMore(m: Machine, k: nat)
    requires Shaped(m) && m.s.current.Some? && k <= m.s.tcbs[m.s.current.value].quantum
    ensures Shaped(Ticked(m, k)) && Ticked(m, 0) == m
    ensures k > 0 ==> Ticked(Ticked(m, 1), k - 1) == Ticked(m, k)
  {
    var (c, t) := (m.s.current.value, m.s.tcbs[m.s.current.value]);
    assert m.s.tcbs[c := t] == m.s.tcbs;
  }

  /** Ticks inside a slice: they are charged to the current thread, count its quantum down, and
      change nothing else. */
  lemma {:induction false} TicksInside(m: Machine, es: seq<Event>)
    requires Shaped(m) && m.s.current.Some? && OnlyTicks(es) && |es| <= m.s.tcbs[m.s.current.value].quantum
    ensures Plays(m, es) && After(m, es) == Ticked(m, |es|)
    decreases |es|
  {
    TickedMore(m, |es|);
    if es != [] {
      TickInside(m, es[0].esp);
      assert Ticked(m, 1).s.current == m.s.current && Ticked(m, 1).s.tcbs[m.s.current.value].quantum == m.s.tcbs[m.s.current.value].quantum - 1;
      hide Shaped, Enabled, Step, Ticked;
      TicksInside(Ticked(m, 1), es[1..]);
    }
  }

  /** A slice is 64 - priority ticks long: after a tick that ends the slice before it, that many
      ticks find and leave the same thread current, and the next one ends the slice. */
  lemma SliceLength(m: Machine, esp: word, es: seq<Event>, last: word)
    requires Sound(m) && m.s.current.Some? && m.s.tcbs[m.s.current.value].quantum == 0 && Enabled(m, Tick(esp))
    requires OnlyTicks(es)
    ensures Shaped(Step(m, Tick(esp))) && Step(m, Tick(esp)).s.current.Some?
    ensures var m1 := Step(m, Tick(esp)); var (c, t) := (m1.s.current.value, m1.s.tcbs[m1.s.current.value]);
      |es| <= 64 - t.priority ==>
        && Plays(m1, es) && After(m1, es).s.current == Some(c) && Shaped(After(m1, es))
        && After(m1, es).s.tcbs[c] == t.(time := Wrap(t.time + |es|), quantum := 64 - t.priority - |es|)
        && (|es| == 64 - t.priority && Enabled(After(m1, es), Tick(last)) ==>
              SliceEnded(After(m1, es).s, Step(After(m1, es), Tick(last)).s, c, last))
  {
    SwitchEndsSlice(m, esp);
    StepKeepsSound(m, Tick(esp));
    var m1 := Step(m, Tick(esp));
    hide Sound, Step, Enabled, SliceEnded, Shaped;
    SoundShaped(m1);
    EndedFacts(m.s, m1.s, m.s.current.value, esp);
    if |es| <= 64 - m1.s.tcbs[m1.s.current.value].priority {
      TicksInside(m1, es);
      RunKeepsSound(m1, es);
      SoundShaped(After(m1, es));
      if |es| == 64 - m1.s.tcbs[m1.s.current.value].priority && Enabled(After(m1, es), Tick(last)) {
        SwitchEndsSlice(After(m1, es), last);
      }
    }
  }

  lemma EndedFacts(s: Sched, s': Sched, t: Ptr, esp: word)
    requires SliceEnded(s, s', t, esp)
    ensures s'.current.Some? && s'.current.value < |s'.tcbs|
    ensures s'.tcbs[s'.current.value].quantum as int == 64 - s'.tcbs[s'.current.value].priority
  {
  }

  /** Of two threads given the processor, the one with the greater priority number gets strictly
      fewer ticks; the slice of priority -63 is 127 ticks long, that of 63 one tick. */
  lemma GreaterIsShorter(m: Machine, e: word, n: Machine, f: word)
    requires Sound(m) && m.s.current.Some? && m.s.tcbs[m.s.current.value].quantum == 0 && Enabled(m, Tick(e))
    requires Sound(n) && n.s.current.Some? && n.s.tcbs[n.s.current.value].quantum == 0 && Enabled(n, Tick(f))
    ensures Step(m, Tick(e)).s.current.Some? && Step(n, Tick(f)).s.current.Some?
    ensures Shaped(Step(m, Tick(e))) && Shaped(Step(n, Tick(f)))
    ensures var (s, r) := (Step(m, Tick(e)).s, Step(n, Tick(f)).s);
      var (a, b) := (s.tcbs[s.current.value], r.tcbs[r.current.value]);
      && (a.priority > b.priority <==> a.quantum < b.quantum)
      && 1 <= a.quantum <= 127 && (a.priority == -63 <==> a.quantum == 127) && (a.priority == 63 <==> a.quantum == 1)
  {
    SwitchEndsSlice(m, e);
    SwitchEndsSlice(n, f);
    StepKeepsSound(m, Tick(e));
    StepKeepsSound(n, Tick(f));
    var s := Step(m, Tick(e)).s;
    assert Bounded(s.tcbs[s.current.value]);
  }

  // ----- nice and yield -----

  /** A priority is changed to a number between -63 and 63, and only by setting it. */
  lemma NiceSets(m: Machine, p: Ptr, priority: int)
    requires Shaped(m) && Enabled(m, SetPriority(p, priority))
    ensures var m' := Step(m, SetPriority(p, priority)); |m'.s.tcbs| == |m.s.tcbs|
    ensures var m' := Step(m, SetPriority(p, priority));
      && m'.s.tcbs[p].priority == (if -63 <= priority <= 63 then priority else m.s.tcbs[p].priority)
      && m' == m.(s := m.s.(tcbs := m.s.tcbs[p := m.s.tcbs[p].(priority := m'.s.tcbs[p].priority)]))
  {
    assert m.s.tcbs[p := m.s.tcbs[p]] == m.s.tcbs;
  }

  lemma StepKeepsPriority(m: Machine, e: Event, p: Ptr)
    requires Shaped(m) && Enabled(m, e) && p < |m.s.tcbs| && !(e.SetPriority? && e.p == p)
    ensures p < |Step(m, e).s.tcbs| && Step(m, e).s.tcbs[p].priority == m.s.tcbs[p].priority
  {
    if e.Tick? && m.s.current.Some? && m.s.tcbs[m.s.current.value].quantum == 0 {
      ScanBelow(Retire(m.s, e.esp));
    }
  }

  /** The priority t has after a run that starts with a given one: the last one set in range. */
  ghost function LastSet(es: seq<Event>, t: Ptr, priority: int): int {
    if es == [] then priority
    else LastSet(es[1..], t, if es[0].SetPriority? && es[0].p == t && -63 <= es[0].priority <= 63 then es[0].priority else priority)
  }

  lemma {:induction false} RunSetsPriority(m: Machine, es: seq<Event>, t: Ptr)
    requires Shaped(m) && Plays(m, es) && t < |m.s.tcbs|
    ensures t < |After(m, es).s.tcbs| && After(m, es).s.tcbs[t].priority == LastSet(es, t, m.s.tcbs[t].priority)
    decreases |es|
  {
    if es != [] {
      if es[0].SetPriority? && es[0].p == t {
        NiceSets(m, t, es[0].priority);
      } else {
        StepKeepsPriority(m, es[0], t);
      }
      if es[1..] != [] {
        RunSetsPriority(Step(m, es[0]), es[1..], t);
      }
    }
  }

  /** Whatever happens in between, a thread's next slice is 64 ticks less the last number that
      nice gave it in range. */
  lemma NextSlice(m: Machine, es: seq<Event>, t: Ptr, esp: word)
    requires Sound(m) && Plays(m, es) && t < |m.s.tcbs|
    requires Shaped(After(m, es)) && Enabled(After(m, es), Tick(esp))
    ensures var (n, n') := (After(m, es), Step(After(m, es), Tick(esp)));
      n.s.current.Some? && n.s.tcbs[n.s.current.value].quantum == 0 && n'.s.current == Some(t) ==>
        t < |n'.s.tcbs| && n'.s.tcbs[t].quantum as int == 64 - LastSet(es, t, m.s.tcbs[t].priority)
  {
    RunKeepsSound(m, es);
    RunSetsPriority(m, es, t);
    var n := After(m, es);
    StepKeepsPriority(n, Tick(esp), t);
    if n.s.current.Some? && n.s.tcbs[n.s.current.value].quantum == 0 {
      SwitchEndsSlice(n, esp);
    }
  }

  /** A tick straight after yield ends the slice, however much of it was left. */
  lemma YieldEndsSlice(m: Machine, esp: word)
    requires Sound(m) && Enabled(m, ZeroQuantum)
    ensures Shaped(Step(m, ZeroQuantum))
    ensures var (c, m1) := (m.s.current.value, Step(m, ZeroQuantum));
      Enabled(m1, Tick(esp)) ==> SliceEnded(m.s, Step(m1, Tick(esp)).s, c, esp)
  {
    StepKeepsSound(m, ZeroQuantum);
    var m1 := Step(m, ZeroQuantum);
    if Enabled(m1, Tick(esp)) {
      SwitchEndsSlice(m1, esp);
    }
  }

  // ----- beginnings -----

  /** A thread's struct as its creator leaves it, for the number the creator read: nobody lists
      it yet, and nothing else changes but numThreads. */
  lemma Created(m: Machine, base: word)
    requires Shaped(m) && Enabled(m, CreateStore(base))
    ensures var (s, s') := (m.s, Step(m, CreateStore(base)).s);
      && s'.num == Here(m).pid + 1 && |s'.tcbs| == |s.tcbs| + 1 && s'.tcbs[..|s.tcbs|] == s.tcbs
      && (s'.list, s'.slots, s'.current, s'.currentTask) == (s.list, s.slots, s.current, s.currentTask)
      && var t := s'.tcbs[|s.tcbs|];
         && t.id == Here(m).pid && t.status == Ready && t.priority == 0 && t.time == 0 && t.quantum == 0
         && t.esp0base == base && t.esp0 == Wrap(base + 0x200 - 60)
  {
  }

  /** A thread's first slice is 64 ticks long, unless nice was used on it before. */
  lemma FirstSlice(m: Machine, base: word, es: seq<Event>, esp: word)
    requires Sound(m) && Enabled(m, CreateStore(base)) && Shaped(Step(m, CreateStore(base)))
    requires Plays(Step(m, CreateStore(base)), es) && Shaped(After(Step(m, CreateStore(base)), es))
    requires Enabled(After(Step(m, CreateStore(base)), es), Tick(esp))
    ensures var (t, n) := (|m.s.tcbs|, After(Step(m, CreateStore(base)), es)); var n' := Step(n, Tick(esp));
      n.s.current.Some? && n.s.tcbs[n.s.current.value].quantum == 0 && n'.s.current == Some(t) ==>
        t < |n'.s.tcbs| && n'.s.tcbs[t].quantum as int == 64 - LastSet(es, t, 0)
  {
    StepKeepsSound(m, CreateStore(base));
    Created(m, base);
    NextSlice(Step(m, CreateStore(base)), es, |m.s.tcbs|, esp);
  }

  /** Publishing puts the thread in front of the list and in the slot of its number. */
  lemma PublishedFirst(m: Machine)
    requires Shaped(m) && Enabled(m, CreatePublish)
    ensures var (p, s, s') := (Here(m).p, m.s, Step(m, CreatePublish).s);
      && s'.list != [] && s'.list[0] == p && s'.list[1..] == s.list
      && (forall i :: 0 <= i < 1024 ==> s'.slots[i] == if i == s.tcbs[p].id then Some(p) else s.slots[i])
      && (s'.tcbs, s'.num, s'.current, s'.currentTask) == (s.tcbs, s.num, s.current, s.currentTask)
  {
  }

  /** start_scheduler gives thread 0 the processor with nothing charged and nothing left of a
      slice, so that the first tick goes through the scan; with a full table it does nothing. */
  lemma SchedulerStarts(m: Machine, esp: word)
    requires Sound(m) && Enabled(m, StartScheduler)
    ensures m.s.num == 1024 ==> Step(m, StartScheduler) == m
    ensures m.s.num < 1024 ==> var m1 := Step(m, StartScheduler);
      && Shaped(m1) && m1.s.current == m.s.slots[0] && m1.s.current.Some? && m1.s.currentTask == 0
      && m1.s.tcbs[m1.s.current.value].time == 0
      && (Enabled(m1, Tick(esp)) ==> SliceEnded(m1.s, Step(m1, Tick(esp)).s, m1.s.current.value, esp))
  {
    StepKeepsSound(m, StartScheduler);
    var m1 := Step(m, StartScheduler);
    if m.s.num < 1024 && Enabled(m1, Tick(esp)) {
      SwitchEndsSlice(m1, esp);
    }
  }
}
