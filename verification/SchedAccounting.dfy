/** Processor time: over every run, each thread is charged exactly the ticks it was current
    for, but for the tick that reaps it.
 */
module SchedAccounting {
  import opened Words
  import opened SchedModel
  import opened SchedMachine

  /** The time in a thread's struct; 0 before it exists. */
  ghost function TimeOf(m: Machine, p: Ptr): word {
    if p < |m.s.tcbs| then m.s.tcbs[p].time else 0
  }

  /** The event is a tick that finds p current and leaves it alive. */
  ghost predicate ChargedTo(m: Machine, e: Event, p: Ptr)
    requires Shaped(m)
  {
    e.Tick? && m.s.current == Some(p) && !(m.s.tcbs[p].quantum == 0 && m.s.tcbs[p].status == Zombie)
  }

  ghost function TicksOf(m: Machine, es: seq<Event>, p: Ptr): nat
    requires Plays(m, es)
    decreases |es|
  {
    if es == [] then 0 else (if ChargedTo(m, es[0], p) then 1 else 0) + TicksOf(Step(m, es[0]), es[1..], p)
  }

  /** Nobody has been charged before the scheduler starts. */
  ghost predicate Unspent(m: Machine) {
    m.s.current.None? ==> forall p :: 0 <= p < |m.s.tcbs| ==> m.s.tcbs[p].time == 0
  }

  lemma TickCharges(m: Machine, esp: word, p: Ptr)
    requires Sound(m) && Enabled(m, Tick(esp)) && Unspent(m)
    ensures Unspent(Step(m, Tick(esp)))
    ensures TimeOf(Step(m, Tick(esp)), p) == Wrap(TimeOf(m, p) + if ChargedTo(m, Tick(esp), p) then 1 else 0)
  {
    if m.s.current.Some? && m.s.tcbs[m.s.current.value].quantum == 0 {
      var r := Retire(m.s, esp);
      ScanBelow(r);
      hide Scan;
    }
  }

  lemma EventCharges(m: Machine, e: Event, p: Ptr)
    requires Sound(m) && Enabled(m, e) && Unspent(m)
    ensures Unspent(Step(m, e))
    ensures TimeOf(Step(m, e), p) == Wrap(TimeOf(m, p) + if ChargedTo(m, e, p) then 1 else 0)
  {
    hide Sound, Step, Enabled, TimeOf, Unspent;
    match e
    case Tick(esp) => TickCharges(m, esp, p);
    case _ => OtherCharges(m, e, p);
  }

  lemma OtherCharges(m: Machine, e: Event, p: Ptr)
    requires Sound(m) && Enabled(m, e) && Unspent(m) && !e.Tick?
    ensures Unspent(Step(m, e)) && TimeOf(Step(m, e), p) == TimeOf(m, p)
  {
    hide Bounded;
  }

  lemma {:induction false} RunCharges(m: Machine, es: seq<Event>, p: Ptr)
    requires Sound(m) && Plays(m, es) && Unspent(m)
    ensures TimeOf(After(m, es), p) == Wrap(TimeOf(m, p) + TicksOf(m, es, p))
    decreases |es|
  {
    hide Sound, Enabled, Step, TimeOf, ChargedTo, Unspent;
    if es != [] {
      StepKeepsSound(m, es[0]);
      EventCharges(m, es[0], p);
      RunCharges(Step(m, es[0]), es[1..], p);
    }
  }

  /** In every run since boot, the time of every thread is the number of ticks it was current
      for and survived, in 32 bits. */
  lemma TimeIsTicks(es: seq<Event>, p: Ptr)
    requires Plays(BOOT, es) && p < |After(BOOT, es).s.tcbs|
    ensures After(BOOT, es).s.tcbs[p].time == Wrap(TicksOf(BOOT, es, p))
  {
    BootSound();
    RunCharges(BOOT, es, p);
  }
}
