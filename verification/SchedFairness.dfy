/** Bounded waiting.

    A thread that is ready in its slot and not current is dispatched within 128 ticks per
    slot, in any run in which it keeps its slot below numThreads and the scan goes round
    below it too, whatever the running threads do meanwhile: yield, kill themselves, change
    priorities, or create threads as long as the table keeps within n slots.  Orderly runs
    are such runs; a lost store of numThreads can leave a listed thread above it, where no
    number of ticks brings the scan.
 */
module SchedFairness {
  import opened Words
  import opened SchedModel
  import opened SchedMachine

  /** t waits in slot i. */
  ghost predicate Served(m: Machine, t: Ptr, i: nat)
    requires Shaped(m)
  {
    m.s.current.Some? && m.s.current.value != t && t < |m.s.tcbs| && IsReady(m.s.tcbs[t]) && InPlace(m.s, t, i)
  }

  /** Slot i is t's, and the scan goes round over it. */
  predicate InPlace(s: Sched, t: Ptr, i: nat) {
    s.currentTask < s.num && i < s.num && i < |s.slots| && s.slots[i] == Some(t)
  }

  /** Slots the scan has to advance from c to reach i in a table of n slots. */
  ghost function Distance(c: nat, i: nat, n: nat): nat
    requires c < n && i < n
  {
    if i > c then i - c else i - c + n
  }

  /** Ticks that can still pass before the thread in slot i is dispatched. */
  ghost function Patience(m: Machine, i: nat, n: nat): (p: nat)
    requires Shaped(m) && m.s.current.Some? && m.s.currentTask < m.s.num <= n && i < m.s.num
    ensures p > 0
  {
    (Distance(m.s.currentTask, i, n) - 1) * 128 + m.s.tcbs[m.s.current.value].quantum + 1
  }

  ghost function Ticks(es: seq<Event>): nat {
    if es == [] then 0 else (if es[0].Tick? then 1 else 0) + Ticks(es[1..])
  }

  /** The scan never jumps over a waiting thread. */
  lemma ScanApproaches(r: Sched, c: nat, i: nat, n: nat) returns (c': nat)
    requires Typed(r) && c < r.num <= n && Runnable(r, i)
    ensures FirstRunnable(r, c, r.num) == Some(c') && c' < r.num
    ensures c' == i || Distance(c', i, n) < Distance(c, i, n)
  {
    var k := ScanFinds(r, c, r.num);
    var d := Distance(c, i, r.num);
    ScanPosIs(c, r.num, d);
    assert Runnable(r, ScanPos(c, r.num, d));
    assert k <= d;
    ScanPosIs(c, r.num, k);
    c' := ScanPos(c, r.num, k);
  }

  /** When a slice ends, t is dispatched or the next slice starts closer to it. */
  lemma SwitchProgress(m: Machine, esp: word, t: Ptr, i: nat, n: nat) returns (c': nat)
    requires Shaped(m) && Served(m, t, i) && m.s.num <= n && m.s.tcbs[m.s.current.value].quantum == 0
    ensures TaskSwitch(m.s, esp).Some? && c' < m.s.num && c' < MAX_THREADS && m.s.slots[c'].Some?
    ensures TaskSwitch(m.s, esp).value.0 == Dispatch(Retire(m.s, esp), c')
    ensures c' == i || Distance(c', i, n) < Distance(m.s.currentTask, i, n)
  {
    var r := Retire(m.s, esp);
    c' := ScanApproaches(r, r.currentTask, i, n);
    FirstBelow(r, r.currentTask, r.num);
  }

  /** A tick dispatches t or brings it strictly closer. */
  lemma TickProgress(m: Machine, esp: word, t: Ptr, i: nat, n: nat)
    requires Sound(m) && Served(m, t, i) && m.s.num <= n
    ensures Enabled(m, Tick(esp)) && Shaped(Step(m, Tick(esp)))
    ensures var m' := Step(m, Tick(esp));
      && m'.s.num == m.s.num && m'.s.slots == m.s.slots
      && (m'.s.current == Some(t) || (Served(m', t, i) && Patience(m', i, n) < Patience(m, i, n)))
  {
    if m.s.tcbs[m.s.current.value].quantum == 0 {
      var c' := SwitchProgress(m, esp, t, i, n);
      var q := m.s.slots[c'].value;
      assert Bounded(m.s.tcbs[q]) && Retire(m.s, esp).tcbs[q].priority == m.s.tcbs[q].priority;
    }
  }

  /** Nothing else moves t further away, as long as its slot stays below numThreads. */
  lemma OtherProgress(m: Machine, e: Event, t: Ptr, i: nat, n: nat)
    requires Sound(m) && Served(m, t, i) && m.s.num <= n && Enabled(m, e) && !e.Tick?
    requires var s' := Step(m, e).s; InPlace(s', t, i) && s'.num <= n
    ensures var m' := Step(m, e); Shaped(m') && Served(m', t, i) && Patience(m', i, n) <= Patience(m, i, n)
  {
  }

  /** Until t is dispatched, it keeps slot i of at most n. */
  ghost predicate KeepsPlace(m: Machine, es: seq<Event>, t: Ptr, i: nat, n: nat)
    requires Plays(m, es)
    decreases |es|
  {
    || m.s.current == Some(t)
    || (InPlace(m.s, t, i) && m.s.num <= n && (es == [] || KeepsPlace(Step(m, es[0]), es[1..], t, i, n)))
  }

  /** One event dispatches t or uses up some of its patience. */
  lemma EventProgress(m: Machine, e: Event, t: Ptr, i: nat, n: nat)
    requires Sound(m) && Served(m, t, i) && m.s.num <= n && Enabled(m, e)
    requires var s' := Step(m, e).s; s'.current == Some(t) || (InPlace(s', t, i) && s'.num <= n)
    ensures var m' := Step(m, e);
      && Sound(m') && Shaped(m')
      && (m'.s.current == Some(t) ||
          (Served(m', t, i) && Patience(m', i, n) + (if e.Tick? then 1 else 0) <= Patience(m, i, n)))
  {
    StepKeepsSound(m, e);
    if e.Tick? {
      TickProgress(m, e.esp, t, i, n);
    } else if Step(m, e).s.current != Some(t) {
      OtherProgress(m, e, t, i, n);
    }
  }

  /** The dispatch comes before the patience runs out. */
  lemma {:induction false} Reaches(m: Machine, es: seq<Event>, t: Ptr, i: nat, n: nat, budget: nat) returns (k: nat)
    requires Sound(m) && Shaped(m) && Served(m, t, i) && m.s.num <= n && Plays(m, es) && KeepsPlace(m, es, t, i, n)
    requires m.s.current.Some? && InPlace(m.s, t, i) && Patience(m, i, n) <= budget <= Ticks(es)
    ensures k <= |es| && Plays(m, es[..k]) && After(m, es[..k]).s.current == Some(t)
    ensures Ticks(es[..k]) <= budget
    decreases |es|
  {
    assert m.s.current != Some(t);
    hide Sound, Enabled, Step, Shaped;
    var (e, m') := (es[0], Step(m, es[0]));
    EventProgress(m, e, t, i, n);
    if m'.s.current == Some(t) {
      k := 1;
      assert es[..1] == [e] && [e][1..] == [];
    } else {
      k := Reaches(m', es[1..], t, i, n, if e.Tick? then budget - 1 else budget);
      k := k + 1;
      assert es[..k][1..] == es[1..][..k - 1];
    }
  }

  /** Bounded waiting, for every run in which t keeps its place among at most n slots. */
  lemma BoundedWaiting(m: Machine, es: seq<Event>, t: Ptr, i: nat, n: nat) returns (k: nat)
    requires Sound(m) && Served(m, t, i) && m.s.num <= n && Plays(m, es) && KeepsPlace(m, es, t, i, n)
    requires Ticks(es) >= if i == m.s.currentTask then n * 128 else (n - 1) * 128
    ensures k <= |es| && Plays(m, es[..k]) && After(m, es[..k]).s.current == Some(t)
    ensures Ticks(es[..k]) <= if i == m.s.currentTask then n * 128 else (n - 1) * 128
  {
    assert Bounded(m.s.tcbs[m.s.current.value]);
    k := Reaches(m, es, t, i, n, if i == m.s.currentTask then n * 128 else (n - 1) * 128);
  }

  // ----- ticks alone -----

  ghost predicate OnlyTicks(es: seq<Event>) {
    forall j :: 0 <= j < |es| ==> es[j].Tick?
  }

  /** Thread t is ready, and slot i, to which the scan can come, is its. */
  ghost predicate Reachable(m: Machine, t: Ptr, i: nat)
    requires Shaped(m)
  {
    m.s.current.Some? && t < |m.s.tcbs| && IsReady(m.s.tcbs[t]) && InReach(m.s, i) && m.s.slots[i] == Some(t)
  }

  /** Ticks until then, if nothing else happens. */
  ghost function TicksLeft(m: Machine, t: Ptr, i: nat): (p: nat)
    requires Shaped(m) && Reachable(m, t, i)
  {
    if m.s.currentTask < m.s.num then Patience(m, i, m.s.num)
    else (i - m.s.currentTask - 1) * 128 + m.s.tcbs[m.s.current.value].quantum + 1
  }

  /** Going up the table the scan stops at the first slot it may. */
  lemma {:induction false} AboveFirst(s: Sched, c: nat, i: nat)
    requires Typed(s) && c <= i && Dispatchable(s, i)
    ensures FirstAbove(s, c).Some? && c <= FirstAbove(s, c).value <= i
    decreases i - c
  {
    if !Dispatchable(s, c) {
      AboveFirst(s, c + 1, i);
    }
  }

  lemma AboveProgress(m: Machine, esp: word, t: Ptr, i: nat)
    requires Sound(m) && Reachable(m, t, i) && m.s.current != Some(t) && m.s.currentTask >= m.s.num
    ensures Enabled(m, Tick(esp)) && Shaped(Step(m, Tick(esp)))
    ensures var m' := Step(m, Tick(esp));
      m'.s.current == Some(t) || (Reachable(m', t, i) && TicksLeft(m', t, i) < TicksLeft(m, t, i))
  {
    if m.s.tcbs[m.s.current.value].quantum == 0 {
      var r := Retire(m.s, esp);
      AboveFirst(r, r.currentTask + 1, i);
      var q := m.s.slots[Scan(r).value].value;
      assert Bounded(m.s.tcbs[q]) && r.tcbs[q].priority == m.s.tcbs[q].priority;
    }
  }

  lemma TicksChange(m: Machine, esp: word)
    requires Shaped(m) && Enabled(m, Tick(esp))
    ensures var m' := Step(m, Tick(esp));
      && m'.s.slots == m.s.slots && m'.s.num == m.s.num && m'.s.list == m.s.list && m'.pcs == m.pcs && m'.boot == m.boot
      && |m'.s.tcbs| == |m.s.tcbs| && m'.s.current.Some? == m.s.current.Some?
  {
    if m.s.current.Some? && m.s.tcbs[m.s.current.value].quantum == 0 {
      ScanBelow(Retire(m.s, esp));
    }
  }

  /** Ticks alone bring a reachable thread to the processor. */
  lemma {:induction false} TicksReach(m: Machine, t: Ptr, i: nat) returns (es: seq<Event>)
    requires Sound(m) && Reachable(m, t, i) && m.s.current != Some(t)
    ensures OnlyTicks(es) && Plays(m, es) && After(m, es).s.current == Some(t)
    ensures var m' := After(m, es);
      && m'.s.slots == m.s.slots && m'.s.num == m.s.num && m'.s.list == m.s.list && m'.pcs == m.pcs && m'.boot == m.boot
      && |m'.s.tcbs| == |m.s.tcbs|
    decreases TicksLeft(m, t, i)
  {
    if m.s.currentTask < m.s.num {
      TickProgress(m, 0, t, i, m.s.num);
    } else {
      AboveProgress(m, 0, t, i);
    }
    StepKeepsSound(m, Tick(0));
    TicksChange(m, 0);
    var m' := Step(m, Tick(0));
    hide Sound, Step, Enabled;
    if m'.s.current == Some(t) {
      es := [Tick(0)];
      assert es[1..] == [];
    } else {
      var fs := TicksReach(m', t, i);
      es := [Tick(0)] + fs;
      assert es[1..] == fs;
    }
  }

  ghost predicate OutOfReach(s: Sched, t: Ptr) {
    forall i :: 0 <= i < |s.slots| && InReach(s, i) ==> s.slots[i] != Some(t)
  }

  lemma TickStaysOut(m: Machine, esp: word, t: Ptr)
    requires Shaped(m) && Enabled(m, Tick(esp)) && m.s.current != Some(t) && OutOfReach(m.s, t)
    ensures var m' := Step(m, Tick(esp)); Shaped(m') && m'.s.current != Some(t) && OutOfReach(m'.s, t)
  {
    if m.s.current.Some? && m.s.tcbs[m.s.current.value].quantum == 0 {
      var r := Retire(m.s, esp);
      if r.currentTask < r.num {
        FirstBelow(r, r.currentTask, r.num);
      } else {
        AboveIsAbove(r, r.currentTask + 1);
      }
    }
  }

  lemma AboveIsAbove(s: Sched, c: nat)
    requires Typed(s)
    ensures FirstAbove(s, c).Some? ==> FirstAbove(s, c).value >= c
    decreases MAX_THREADS - c
  {
  }

  lemma {:induction false} TicksStayOut(m: Machine, es: seq<Event>, t: Ptr)
    requires Shaped(m) && m.s.current != Some(t) && OutOfReach(m.s, t) && OnlyTicks(es) && Plays(m, es)
    ensures After(m, es).s.current != Some(t)
    decreases |es|
  {
    if es != [] {
      TickStaysOut(m, es[0].esp, t);
      hide OutOfReach, Step, Enabled, Shaped;
      TicksStayOut(Step(m, es[0]), es[1..], t);
    }
  }

  /** Exactly which ready threads the timer alone brings to the processor, in any run: those in
      a slot the scan can come to. */
  lemma TicksReachIff(m: Machine, t: Ptr)
    requires Sound(m) && m.s.current.Some? && m.s.current != Some(t) && t < |m.s.tcbs| && IsReady(m.s.tcbs[t])
    ensures (exists es :: OnlyTicks(es) && Plays(m, es) && After(m, es).s.current == Some(t)) <==> !OutOfReach(m.s, t)
  {
    if OutOfReach(m.s, t) {
      forall es | OnlyTicks(es) && Plays(m, es) ensures After(m, es).s.current != Some(t) {
        TicksStayOut(m, es, t);
      }
    } else {
      var i :| 0 <= i < |m.s.slots| && InReach(m.s, i) && m.s.slots[i] == Some(t);
      var es := TicksReach(m, t, i);
    }
  }

  /** The current thread is in its slot below numThreads and alive. */
  ghost predicate Rolling(m: Machine) {
    && Shaped(m) && m.s.current.Some? && m.s.currentTask < m.s.num && m.s.slots[m.s.currentTask] == m.s.current
    && m.s.tcbs[m.s.current.value].status != Zombie
  }

  lemma TickRolls(m: Machine, esp: word)
    requires Rolling(m)
    ensures Enabled(m, Tick(esp)) && Rolling(Step(m, Tick(esp)))
  {
    TickReturnsIff(m.s, esp);
    assert InReach(m.s, m.s.currentTask) && CanRun(m.s, m.s.currentTask);
    if m.s.tcbs[m.s.current.value].quantum == 0 {
      var r := Retire(m.s, esp);
      FirstBelow(r, r.currentTask, r.num);
    }
  }

  /** From there the timer goes on for ever. */
  lemma {:induction false} TicksRoll(m: Machine, es: seq<Event>)
    requires Rolling(m) && OnlyTicks(es)
    ensures Plays(m, es)
    decreases |es|
  {
    if es != [] {
      TickRolls(m, es[0].esp);
      TicksRoll(Step(m, es[0]), es[1..]);
    }
  }

  // ----- orderly runs -----

  ghost predicate Waiting(m: Machine, t: Ptr)
    requires Counted(m)
  {
    && m.s.current.Some? && m.s.current.value != t
    && t < m.s.num && m.s.slots[t].Some? && IsReady(m.s.tcbs[t])
  }

  lemma WaitingServed(m: Machine, t: Ptr)
    requires Inv(m) && Waiting(m, t)
    ensures Sound(m) && Served(m, t, t) && t != m.s.currentTask
  {
    InvSound(m);
    assert m.s.slots[t] == Some(t) && CurrentOk(m, m.s.current.value);
  }

  lemma StepNum(m: Machine, e: Event)
    requires Inv(m) && Proper(m, e)
    ensures m.s.num <= Step(m, e).s.num
  {
  }

  lemma {:induction false} NumGrows(m: Machine, es: seq<Event>)
    requires Inv(m) && Plays(m, es) && Orderly(m, es)
    ensures m.s.num <= After(m, es).s.num
    decreases |es|
  {
    if es != [] {
      StepKeepsInv(m, es[0]);
      StepNum(m, es[0]);
      NumGrows(Step(m, es[0]), es[1..]);
    }
  }

  lemma StaysWaiting(m: Machine, e: Event, t: Ptr)
    requires Inv(m) && Waiting(m, t) && Proper(m, e)
    ensures var m' := Step(m, e); Inv(m') && Counted(m') && (m'.s.current == Some(t) || Waiting(m', t))
  {
    StepKeepsInv(m, e);
    WaitingServed(m, t);
    if e.Tick? {
      TickProgress(m, e.esp, t, t, m.s.num);
    } else {
      assert CurrentOk(m, m.s.current.value);
    }
  }

  /** In an orderly run a published thread keeps its place. */
  lemma {:induction false} OrderlyKeepsPlace(m: Machine, es: seq<Event>, t: Ptr, n: nat)
    requires Inv(m) && Counted(m) && Waiting(m, t) && Plays(m, es) && Orderly(m, es) && After(m, es).s.num <= n
    ensures KeepsPlace(m, es, t, t, n)
    decreases |es|
  {
    WaitingServed(m, t);
    NumGrows(m, es);
    hide Inv, Counted, Enabled, Fresh, Step, Waiting, InPlace, Sound;
    if es != [] {
      StaysWaiting(m, es[0], t);
      if Step(m, es[0]).s.current != Some(t) {
        OrderlyKeepsPlace(Step(m, es[0]), es[1..], t, n);
      }
    }
  }

  /** Bounded waiting, for every orderly run in which the table has at most n slots. */
  lemma OrderlyBoundedWaiting(m: Machine, es: seq<Event>, t: Ptr, n: nat) returns (k: nat)
    requires Inv(m) && Waiting(m, t) && Plays(m, es) && Orderly(m, es) && After(m, es).s.num <= n
    requires Ticks(es) >= (n - 1) * 128
    ensures k <= |es| && Plays(m, es[..k]) && After(m, es[..k]).s.current == Some(t)
    ensures Ticks(es[..k]) <= (n - 1) * 128
  {
    NumGrows(m, es);
    WaitingServed(m, t);
    OrderlyKeepsPlace(m, es, t, n);
    k := BoundedWaiting(m, es, t, t, n);
  }
}
