/** What each atomic piece of process.c does to the scheduler's state, as functions.

    Threads are named by the order in which their creators stored numThreads, so a `Ptr`
    stands for a kernel_thread_t pointer.  Class `Scheduler` runs the code on real objects and
    is proved equal to these functions.
 */
module SchedModel {
  import opened Words
  import opened Sequences

  const MAX_THREADS: nat := 1024
  const INT_PER_SLICE: int := 64
  const STACK_SIZE: nat := 0x200
  const FRAME_SIZE: nat := 60

  datatype Status = Initial | Ready | Running | Wait | Sleep | Stop | Zombie | Free

  type Ptr = nat

  datatype Tcb = Tcb(id: nat, priority: int, status: Status, esp0: word, esp0base: word, time: word, quantum: word)

  datatype Sched = Sched(
    currentTask: nat, current: Option<Ptr>, slots: seq<Option<Ptr>>, num: nat, tcbs: seq<Tcb>, list: seq<Ptr>)

  /** Every pointer the scheduler holds is the address of a thread. */
  predicate Typed(s: Sched) {
    && |s.slots| == MAX_THREADS && s.num <= MAX_THREADS
    && (s.current.Some? ==> s.current.value < |s.tcbs| && s.currentTask < MAX_THREADS)
    && (forall i :: 0 <= i < MAX_THREADS && s.slots[i].Some? ==> s.slots[i].value < |s.tcbs|)
  }

  function Quantum(t: Tcb): word {
    Wrap(INT_PER_SLICE - t.priority)
  }

  /** A slot the dispatch scan stops at when it gets there. */
  predicate Dispatchable(s: Sched, i: nat)
    requires Typed(s)
  {
    && i < MAX_THREADS && s.slots[i].Some?
    && var st := s.tcbs[s.slots[i].value].status; st == Ready || st == Wait
  }

  predicate Runnable(s: Sched, i: nat)
    requires Typed(s)
  {
    i < s.num && Dispatchable(s, i)
  }

  // ----- the dispatch scan -----

  function Next(i: nat, n: nat): nat {
    if i + 1 == n then 0 else i + 1
  }

  /** Where the scan stands after k rounds of its endless loop. */
  function ScanPos(c: nat, n: nat, k: nat): nat {
    if k == 0 then c else Next(ScanPos(c, n, k - 1), n)
  }

  /** The slot at which the scan stops within the given number of rounds. */
  function FirstRunnable(s: Sched, c: nat, rounds: nat): Option<nat>
    requires Typed(s)
    decreases rounds
  {
    if rounds == 0 then None
    else if Runnable(s, Next(c, s.num)) then Some(Next(c, s.num))
    else FirstRunnable(s, Next(c, s.num), rounds - 1)
  }

  /** Where the scan stops once its index is no longer below numThreads: it runs up the table
      and never turns round.  None means that it leaves the table. */
  function FirstAbove(s: Sched, i: nat): (f: Option<nat>)
    requires Typed(s)
    ensures f.Some? ==> Dispatchable(s, f.value)
    decreases MAX_THREADS - i
  {
    if i >= MAX_THREADS then None
    else if Dispatchable(s, i) then Some(i)
    else FirstAbove(s, i + 1)
  }

  /** The slot the scan of __task_switch stops at. */
  function Scan(s: Sched): Option<nat>
    requires Typed(s)
  {
    if s.currentTask < s.num then FirstRunnable(s, s.currentTask, s.num) else FirstAbove(s, s.currentTask + 1)
  }

  // ----- __task_switch -----

  /** A slice in progress: account the tick to the current thread. */
  function Account(s: Sched): Sched
    requires Typed(s) && s.current.Some? && s.tcbs[s.current.value].quantum > 0
  {
    var (c, t) := (s.current.value, s.tcbs[s.current.value]);
    s.(tcbs := s.tcbs[c := t.(time := Wrap(t.time + 1), quantum := t.quantum - 1)])
  }

  /** A finished slice: reap the current thread if it is a zombie, else suspend it. */
  function Retire(s: Sched, esp: word): (r: Sched)
    requires Typed(s) && s.current.Some?
    ensures Typed(r)
  {
    var (c, t) := (s.current.value, s.tcbs[s.current.value]);
    s.(tcbs := s.tcbs[c := if t.status == Zombie
                           then t.(id := 0, esp0 := t.esp0base, status := Free)
                           else t.(time := Wrap(t.time + 1), esp0 := esp, status := Wait)])
  }

  function Dispatch(s: Sched, i: nat): (r: Sched)
    requires Typed(s) && i < MAX_THREADS && s.slots[i].Some?
    ensures Typed(r)
  {
    var p := s.slots[i].value;
    s.(currentTask := i, current := Some(p),
       tcbs := s.tcbs[p := s.tcbs[p].(quantum := Quantum(s.tcbs[p]), status := Running)])
  }

  /** __task_switch: the new state and the stack pointer returned, or None when the
      scan never ends or leaves the table. */
  function TaskSwitch(s: Sched, esp: word): Option<(Sched, word)>
    requires Typed(s)
  {
    if s.current.None? then Some((s, esp))
    else if s.tcbs[s.current.value].quantum > 0 then Some((Account(s), esp))
    else
      var r := Retire(s, esp);
      var i := Scan(r);
      if i.None? then None else
      FirstBelow(r, r.currentTask, r.num);
      Some((Dispatch(r, i.value), r.tcbs[r.slots[i.value].value].esp0))
  }

  // ----- the other atomic steps -----

  function SetQuantum(s: Sched, q: word): Sched
    requires Typed(s) && s.current.Some?
  {
    s.(tcbs := s.tcbs[s.current.value := s.tcbs[s.current.value].(quantum := q)])
  }

  /** First statement of kill. */
  function MarkZombie(s: Sched): Sched
    requires Typed(s) && s.current.Some?
  {
    s.(tcbs := s.tcbs[s.current.value := s.tcbs[s.current.value].(status := Zombie)])
  }

  /** The part of kill between cli and sti. */
  function Unlink(s: Sched): Sched
    requires Typed(s) && s.current.Some?
  {
    s.(list := Without(s.list, s.current.value), slots := s.slots[s.currentTask := None])
  }

  /** nice and p_nice: out-of-range priorities are ignored. */
  function Nice(s: Sched, p: Ptr, priority: int): Sched
    requires p < |s.tcbs|
  {
    if -INT_PER_SLICE < priority < INT_PER_SLICE
    then s.(tcbs := s.tcbs[p := s.tcbs[p].(priority := priority)]) else s
  }

  /** create_kernel_thread from the store of numThreads to its cli: the new thread has the
      number its creator read, and is unpublished. */
  function NewThread(s: Sched, pid: nat, base: word): Sched
    requires Typed(s) && pid < MAX_THREADS
  {
    s.(num := pid + 1,
       tcbs := s.tcbs + [Tcb(pid, 0, Ready, Wrap(base + STACK_SIZE - FRAME_SIZE), base, 0, 0)])
  }

  /** create_kernel_thread between cli and sti. */
  function Publish(s: Sched, p: Ptr): Sched
    requires Typed(s) && p < |s.tcbs| && s.tcbs[p].id < MAX_THREADS
  {
    s.(list := [p] + s.list, slots := s.slots[s.tcbs[p].id := Some(p)])
  }

  function Start(s: Sched): Sched
    requires Typed(s) && s.slots[0].Some? && s.num > 0
  {
    if s.num == MAX_THREADS then s else
    var c := s.slots[0].value;
    s.(currentTask := 0, current := Some(c), tcbs := s.tcbs[c := s.tcbs[c].(time := 0, quantum := 0)])
  }

  // ----- the scan, characterised -----

  lemma {:induction false} FirstBelow(s: Sched, c: nat, rounds: nat)
    requires Typed(s)
    decreases rounds
    ensures var f := FirstRunnable(s, c, rounds); f.Some? ==> Runnable(s, f.value)
  {
    if rounds > 0 && !Runnable(s, Next(c, s.num)) {
      FirstBelow(s, Next(c, s.num), rounds - 1);
    }
  }

  lemma ScanBelow(s: Sched)
    requires Typed(s)
    ensures Scan(s).Some? ==> Dispatchable(s, Scan(s).value)
  {
    FirstBelow(s, s.currentTask, s.num);
  }

  lemma {:induction false} ScanPosShift(c: nat, n: nat, k: nat)
    ensures ScanPos(Next(c, n), n, k) == ScanPos(c, n, k + 1)
  {
    if k > 0 {
      ScanPosShift(c, n, k - 1);
    }
  }

  /** One trip round the ring needs no modulus. */
  lemma {:induction false} ScanPosIs(c: nat, n: nat, k: nat)
    requires c < n && k <= n
    ensures ScanPos(c, n, k) == if c + k < n then c + k else c + k - n
  {
    if k > 0 {
      ScanPosIs(c, n, k - 1);
    }
  }

  /** The scan stops at the first runnable slot on its way, or visits none. */
  lemma {:induction false} ScanFinds(s: Sched, c: nat, rounds: nat) returns (k: nat)
    requires Typed(s)
    decreases rounds
    ensures 1 <= k <= rounds + 1
    ensures forall j :: 1 <= j < k ==> !Runnable(s, ScanPos(c, s.num, j))
    ensures match FirstRunnable(s, c, rounds)
      case Some(i) => k <= rounds && i == ScanPos(c, s.num, k) && Runnable(s, i)
      case None => k == rounds + 1
  {
    if rounds == 0 || Runnable(s, Next(c, s.num)) {
      assert ScanPos(c, s.num, 1) == Next(ScanPos(c, s.num, 0), s.num);
      k := 1;
    } else {
      var k' := ScanFinds(s, Next(c, s.num), rounds - 1);
      k := k' + 1;
      ScanPosShift(c, s.num, k');
      forall j | 1 <= j < k ensures !Runnable(s, ScanPos(c, s.num, j)) {
        ScanPosShift(c, s.num, j - 1);
        if j == 1 {
          assert ScanPos(c, s.num, 1) == Next(ScanPos(c, s.num, 0), s.num);
        }
      }
    }
  }

  /** After k + 1 rounds the scan may stop. */
  ghost predicate StopsAt(s: Sched, c: nat, k: nat)
    requires Typed(s)
  {
    Runnable(s, ScanPos(c, s.num, k + 1))
  }

  /** The endless loop of __task_switch ends, and then within one trip round the table,
      exactly when some slot holds a runnable thread. */
  lemma ScanEndsIff(s: Sched, c: nat)
    requires Typed(s) && c < s.num
    ensures (exists k: nat :: StopsAt(s, c, k)) <==> (exists i: nat :: Runnable(s, i))
    ensures FirstRunnable(s, c, s.num).Some? <==> (exists i: nat :: Runnable(s, i))
  {
    var k := ScanFinds(s, c, s.num);
    if i: nat :| Runnable(s, i) {
      var d := if i > c then i - c else i - c + s.num;
      ScanPosIs(c, s.num, d);
      assert StopsAt(s, c, d - 1);
      assert k <= d;
    }
    if FirstRunnable(s, c, s.num).Some? {
      assert StopsAt(s, c, k - 1);
    }
  }
}
