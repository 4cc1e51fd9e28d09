/** Register contexts on thread stacks: what isr.s saves and restores around a switch,
    and why a thread that is resumed finds every register as it left it.
 */
module Context {
  import opened Words
  import opened SchedModel
  import opened SchedMachine

  datatype Regs = Regs(
    eax: word, ecx: word, edx: word, ebx: word, esp: word, ebp: word, esi: word, edi: word,
    ds: word, es: word, fs: word, gs: word, eip: word, cs: word, eflags: word)

  const KERNEL_CODE_SELECTOR: word := 0x18
  const KERNEL_DATA_SELECTOR: word := 0x20
  const START_FLAGS: word := 0x0202

  /** The fifteen words the hardware and MACRO_REGS_SAVE leave on the stack, lowest first.
      pushad stores the stack pointer it found; popad skips it. */
  function FrameWords(r: Regs, sp: word): (f: seq<word>)
    ensures |f| == 15
  {
    [r.ds, r.es, r.fs, r.gs, r.edi, r.esi, r.ebp, sp, r.ebx, r.edx, r.ecx, r.eax, r.eip, r.cs, r.eflags]
  }

  /** Storing words upwards from a. */
  function Store(mem: Mem, a: int, f: seq<word>): Mem
    decreases |f|
  {
    if f == [] then mem else Store(mem[a := f[0]], a + 4, f[1..])
  }

  lemma {:induction false} StoreLoad(mem: Mem, a: int, f: seq<word>, b: int)
    ensures Load(Store(mem, a, f), b) ==
      if a <= b < a + 4 * |f| && (b - a) % 4 == 0 then f[(b - a) / 4] else Load(mem, b)
    decreases |f|
  {
    if f != [] {
      StoreLoad(mem[a := f[0]], a + 4, f[1..], b);
    }
  }

  /** Registers r are saved at a; the stack pointer itself is implied by a. */
  ghost predicate FrameAt(mem: Mem, a: int, r: Regs) {
    && r.esp == a + FRAME_SIZE
    && Load(mem, a) == r.ds && Load(mem, a + 4) == r.es && Load(mem, a + 8) == r.fs && Load(mem, a + 12) == r.gs
    && Load(mem, a + 16) == r.edi && Load(mem, a + 20) == r.esi && Load(mem, a + 24) == r.ebp
    && Load(mem, a + 32) == r.ebx && Load(mem, a + 36) == r.edx && Load(mem, a + 40) == r.ecx && Load(mem, a + 44) == r.eax
    && Load(mem, a + 48) == r.eip && Load(mem, a + 52) == r.cs && Load(mem, a + 56) == r.eflags
  }

  /** The registers after MACRO_REGS_RESTORE and iret with the stack pointer at a. */
  function Restored(mem: Mem, a: word): Regs {
    Regs(Load(mem, a + 44), Load(mem, a + 40), Load(mem, a + 36), Load(mem, a + 32), Wrap(a + FRAME_SIZE),
         Load(mem, a + 24), Load(mem, a + 20), Load(mem, a + 16),
         Load(mem, a), Load(mem, a + 4), Load(mem, a + 8), Load(mem, a + 12),
         Load(mem, a + 48), Load(mem, a + 52), Load(mem, a + 56))
  }

  /** Save, then restore from the same place: every register is back. */
  lemma SaveRestore(mem: Mem, r: Regs, sp: word)
    requires r.esp >= FRAME_SIZE
    ensures FrameAt(Store(mem, r.esp - FRAME_SIZE, FrameWords(r, sp)), r.esp - FRAME_SIZE, r)
  {
    hide Store, Load, FrameAt, FrameWords;
    var (a, f) := (r.esp - FRAME_SIZE, FrameWords(r, sp));
    forall i | 0 <= i < 15 ensures Load(Store(mem, a, f), a + 4 * i) == f[i] {
      StoreLoad(mem, a, f, a + 4 * i);
    }
    FrameSlots(Store(mem, a, f), a, r, sp);
  }

  lemma FrameSlots(m: Mem, a: int, r: Regs, sp: word)
    requires r.esp == a + FRAME_SIZE
    requires var f := FrameWords(r, sp); forall i :: 0 <= i < 15 ==> Load(m, a + 4 * i) == f[i]
    ensures FrameAt(m, a, r)
  {
    hide Load;
    var f := FrameWords(r, sp);
    assert Load(m, a + 4 * 0) == f[0] && Load(m, a + 4 * 1) == f[1] && Load(m, a + 4 * 2) == f[2];
    assert Load(m, a + 4 * 3) == f[3] && Load(m, a + 4 * 4) == f[4] && Load(m, a + 4 * 5) == f[5];
    assert Load(m, a + 4 * 6) == f[6] && Load(m, a + 4 * 8) == f[8] && Load(m, a + 4 * 9) == f[9];
    assert Load(m, a + 4 * 10) == f[10] && Load(m, a + 4 * 11) == f[11] && Load(m, a + 4 * 12) == f[12];
    assert Load(m, a + 4 * 13) == f[13] && Load(m, a + 4 * 14) == f[14];
  }

  lemma FrameRestores(mem: Mem, a: word, r: Regs)
    requires FrameAt(mem, a, r)
    ensures Restored(mem, a) == r
  {
  }

  /** What create_kernel_thread writes below the top of a new stack. */
  function InitialFrame(eip: word): seq<word> {
    FrameWords(FirstRegs(0, eip), 0)
  }

  /** The registers a new thread starts with: its entry point and an empty stack. */
  function FirstRegs(top: word, eip: word): Regs {
    Regs(0, 0, 0, 0, top, 0, 0, 0,
         KERNEL_DATA_SELECTOR, KERNEL_DATA_SELECTOR, KERNEL_DATA_SELECTOR, KERNEL_DATA_SELECTOR,
         eip, KERNEL_CODE_SELECTOR, START_FLAGS)
  }

  lemma FirstFrame(mem: Mem, top: word, eip: word)
    requires top >= FRAME_SIZE
    ensures FrameAt(Store(mem, top - FRAME_SIZE, InitialFrame(eip)), top - FRAME_SIZE, FirstRegs(top, eip))
  {
    hide Store, Load, FrameAt;
    SaveRestore(mem, FirstRegs(top, eip), 0);
  }

  /** Maskable interrupts are taken: bit 9 of EFLAGS (section 3.4.3 of Intel SDM Vol. 1). */
  predicate InterruptsOn(r: Regs) {
    r.eflags / 0x200 % 2 == 1
  }

  /** A new thread starts at its entry point with an empty stack, the kernel's segments, zeroes
      everywhere else and interrupts on. */
  predicate Starts(r: Regs, top: word, eip: word) {
    && InterruptsOn(r) && r.eflags == 0x202 && r.cs == 0x18 && r.eip == eip && r.esp == top
    && r.ds == 0x20 && r.es == 0x20 && r.fs == 0x20 && r.gs == 0x20
    && r.eax == 0 && r.ecx == 0 && r.edx == 0 && r.ebx == 0 && r.ebp == 0 && r.esi == 0 && r.edi == 0
  }

  /** The fifteen words below the top of a new stack are what such a thread is restored from. */
  lemma FirstFrameStarts(mem: Mem, top: word, eip: word)
    requires top >= FRAME_SIZE
    ensures Starts(Restored(Store(mem, top - FRAME_SIZE, InitialFrame(eip)), top - FRAME_SIZE), top, eip)
  {
    hide Store, FrameAt, Restored, InitialFrame, FirstRegs, Starts;
    FirstFrame(mem, top, eip);
    FrameRestores(Store(mem, top - FRAME_SIZE, InitialFrame(eip)), top - FRAME_SIZE, FirstRegs(top, eip));
    FirstRegsStart(top, eip);
  }

  lemma FirstRegsStart(top: word, eip: word)
    ensures Starts(FirstRegs(top, eip), top, eip)
  {
  }

  // ----- the whole system -----

  datatype Region = Region(lo: nat, hi: nat)

  predicate Apart(a: Region, b: Region) {
    a.hi <= b.lo || b.hi <= a.lo
  }

  /** The scheduler, the running code's registers, memory, the stack of every thread, and
      (for the statement only) the registers each thread was last suspended with. */
  datatype System = System(m: Machine, regs: Regs, mem: Mem, stacks: seq<Region>, boot: Region, saved: seq<Regs>)

  datatype Action =
    | Interrupt(scratch: Mem)
    | Work(e: Option<Event>, regs: Regs, mem: Mem, entry: word)

  predicate Formed(k: System) {
    Shaped(k.m) && |k.stacks| == |k.saved| == |k.m.s.tcbs|
  }

  /** The stack in use. */
  function Here(k: System): Region
    requires Formed(k)
  {
    if k.m.s.current.Some? then k.stacks[k.m.s.current.value] else k.boot
  }

  ghost predicate SameIn(mem: Mem, mem': Mem, g: Region) {
    forall a :: g.lo <= a < g.hi ==> Load(mem', a) == Load(mem, a)
  }

  /** Interrupts come only while the running code has them on, and need room for a frame above the words the handler scribbles on.  Other
      code may do anything but touch the stacks of other threads, and
      create_kernel_thread takes a stack nobody has and writes the first frame on it. */
  ghost predicate Allowed(k: System, x: Action)
    requires Formed(k)
  {
    match x
    case Interrupt(scratch) =>
      && InterruptsOn(k.regs) && Here(k).lo + FRAME_SIZE <= k.regs.esp <= Here(k).hi
      && (forall a :: a in scratch ==> Here(k).lo <= a < k.regs.esp - FRAME_SIZE)
      && Enabled(k.m, Tick(k.regs.esp - FRAME_SIZE))
    case Work(e, _, mem, entry) =>
      && (forall p :: 0 <= p < |k.m.s.tcbs| && k.m.s.current != Some(p) ==> SameIn(k.mem, mem, k.stacks[p]))
      && (e.Some? ==> !e.value.Tick? && Enabled(k.m, e.value))
      && (e.Some? && e.value.CreateStore? ==>
            var g := Region(e.value.base, e.value.base + STACK_SIZE);
            && g.hi < WORD && Apart(g, k.boot) && (forall p :: 0 <= p < |k.m.s.tcbs| ==> Apart(g, k.stacks[p]))
            && FrameAt(mem, g.hi - FRAME_SIZE, FirstRegs(g.hi, entry)))
  }

  ghost function Perform(k: System, x: Action): System
    requires Formed(k) && Allowed(k, x)
  {
    match x
    case Interrupt(scratch) =>
      var sp := k.regs.esp - FRAME_SIZE;
      var mem := Store(k.mem, sp, FrameWords(k.regs, sp + 48)) + scratch;
      var (s, ret) := TaskSwitch(k.m.s, sp).value;
      k.(m := k.m.(s := s), regs := Restored(mem, ret), mem := mem,
         saved := if k.m.s.current.Some? && Suspends(k.m, Tick(sp), k.m.s.current.value)
                  then k.saved[k.m.s.current.value := k.regs] else k.saved)
    case Work(e, regs, mem, entry) =>
      var m := if e.Some? then Step(k.m, e.value) else k.m;
      if e.Some? && e.value.CreateStore? then
        var g := Region(e.value.base, e.value.base + STACK_SIZE);
        System(m, regs, mem, k.stacks + [g], k.boot, k.saved + [FirstRegs(g.hi, entry)])
      else if e == Some(StartScheduler) && k.m.s.num < MAX_THREADS then
        System(m, regs, mem, k.stacks[0 := k.boot], k.boot, k.saved)
      else System(m, regs, mem, k.stacks, k.boot, k.saved)
  }

  /** Stacks do not overlap; while the boot code runs it has a stack of its own. */
  ghost predicate Separate(k: System)
    requires Formed(k)
  {
    && (forall p, q :: 0 <= p < q < |k.m.s.tcbs| ==> Apart(k.stacks[p], k.stacks[q]))
    && (k.m.s.current.None? ==> forall p :: 0 <= p < |k.m.s.tcbs| ==> Apart(k.stacks[p], k.boot))
    && (k.m.s.current.Some? ==> forall p :: 1 <= p < |k.m.s.tcbs| ==> Apart(k.stacks[p], k.boot))
  }

  /** A thread that is not running and may run again has its registers on its stack. */
  ghost predicate Stacked(k: System, p: Ptr)
    requires Formed(k) && p < |k.m.s.tcbs|
  {
    IsReady(k.m.s.tcbs[p]) ==>
      && k.stacks[p].lo <= k.m.s.tcbs[p].esp0 && k.m.s.tcbs[p].esp0 + FRAME_SIZE <= k.stacks[p].hi
      && FrameAt(k.mem, k.m.s.tcbs[p].esp0, k.saved[p])
  }

  ghost predicate SystemInv(k: System) {
    && Sound(k.m) && Formed(k) && Separate(k)
    && forall p :: 0 <= p < |k.m.s.tcbs| && k.m.s.current != Some(p) ==> Stacked(k, p)
  }

  /** A frame survives whatever leaves its stack alone. */
  lemma FrameKept(mem: Mem, mem': Mem, g: Region, a: int, r: Regs)
    requires FrameAt(mem, a, r) && SameIn(mem, mem', g) && g.lo <= a && a + FRAME_SIZE <= g.hi
    ensures FrameAt(mem', a, r)
  {
  }

  /** An interrupt writes only to the stack it came on. */
  lemma InterruptKeeps(mem: Mem, g: Region, h: Region, sp: word, f: seq<word>, scratch: Mem)
    requires Apart(g, h) && h.lo <= sp && sp + FRAME_SIZE <= h.hi && |f| == 15
    requires forall a :: a in scratch ==> h.lo <= a < sp
    ensures SameIn(mem, Store(mem, sp, f) + scratch, g)
  {
    forall a | g.lo <= a < g.hi ensures Load(Store(mem, sp, f) + scratch, a) == Load(mem, a) {
      StoreLoad(mem, sp, f, a);
    }
  }

  /** Ordinary events leave the saved stack pointers of the other threads alone. */
  lemma WorkKeepsPointers(m: Machine, e: Event, p: Ptr)
    requires Sound(m) && Enabled(m, e) && !e.Tick? && p < |m.s.tcbs|
    ensures var m' := Step(m, e);
      && p < |m'.s.tcbs| && m'.s.tcbs[p].esp0 == m.s.tcbs[p].esp0
      && (m.s.current.Some? ==> m'.s.current == m.s.current)
      && (m'.s.current != Some(p) ==> m.s.current != Some(p) && m'.s.tcbs[p].status == m.s.tcbs[p].status)
  {
  }

  /** The new threads and the new current thread after an ordinary event. */
  lemma WorkNumbers(m: Machine, e: Event)
    requires Sound(m) && Enabled(m, e) && !e.Tick?
    ensures var m' := Step(m, e);
      && Shaped(m') && |m'.s.tcbs| == |m.s.tcbs| + (if e.CreateStore? then 1 else 0)
      && (m'.s.current == m.s.current || (e == StartScheduler && m.s.num < MAX_THREADS && m'.s.current == Some(0)))
      && (e.CreateStore? ==> m'.s.tcbs[|m.s.tcbs|].esp0 == Wrap(e.base + STACK_SIZE - FRAME_SIZE))
      && (e == StartScheduler && m.s.num < MAX_THREADS ==>
            m'.s.current == Some(0) && m.s.current.None? && 0 < |m.s.tcbs|)
  {
    if e.StartScheduler? {
      assert m.s.slots[0] == Some(0);
    }
  }

  lemma WorkFields(k: System, x: Action, p: Ptr)
    requires Formed(k) && Allowed(k, x) && x.Work? && p < |k.m.s.tcbs|
    ensures var k' := Perform(k, x);
      && k'.m == (if x.e.Some? then Step(k.m, x.e.value) else k.m) && k'.mem == x.mem && k'.boot == k.boot
      && p < |k'.stacks| && p < |k'.saved| && k'.saved[p] == k.saved[p]
      && (k'.stacks[p] == k.stacks[p] || (p == 0 && x.e == Some(StartScheduler) && k.m.s.num < MAX_THREADS))
  {
    hide Step, Enabled, FrameAt, Apart, SameIn;
  }

  lemma WorkStacked(k: System, x: Action, p: Ptr)
    requires SystemInv(k) && Allowed(k, x) && x.Work? && x.e.Some? && p < |k.m.s.tcbs|
    requires Formed(Perform(k, x)) && Perform(k, x).m.s.current != Some(p)
    ensures Stacked(Perform(k, x), p)
  {
    WorkFields(k, x, p);
    WorkKeepsPointers(k.m, x.e.value, p);
    WorkNumbers(k.m, x.e.value);
    assert SameIn(k.mem, x.mem, k.stacks[p]);
    hide Sound, Step, FrameAt, Enabled, Apart, Perform, Allowed, SameIn;
    assert Stacked(k, p);
    if IsReady(k.m.s.tcbs[p]) {
      FrameKept(k.mem, x.mem, k.stacks[p], k.m.s.tcbs[p].esp0, k.saved[p]);
    }
  }

  lemma WorkKeepsInv(k: System, x: Action)
    requires SystemInv(k) && Allowed(k, x) && x.Work?
    ensures SystemInv(Perform(k, x))
  {
    hide Sound, Step, FrameAt;
    var k' := Perform(k, x);
    if x.e.Some? {
      StepKeepsSound(k.m, x.e.value);
      WorkNumbers(k.m, x.e.value);
      forall p | 0 <= p < |k'.m.s.tcbs| && k'.m.s.current != Some(p) ensures Stacked(k', p) {
        if p < |k.m.s.tcbs| {
          WorkStacked(k, x, p);
        }
      }
    } else {
      forall p | 0 <= p < |k'.m.s.tcbs| && k'.m.s.current != Some(p) ensures Stacked(k', p) {
        assert Stacked(k, p);
        if IsReady(k.m.s.tcbs[p]) {
          FrameKept(k.mem, x.mem, k.stacks[p], k.m.s.tcbs[p].esp0, k.saved[p]);
        }
      }
    }
  }

  /** Memory once the handler has run on the interrupted stack. */
  ghost function HandlerMem(k: System, scratch: Mem): Mem
    requires Formed(k) && Allowed(k, Interrupt(scratch))
  {
    var sp := k.regs.esp - FRAME_SIZE;
    Store(k.mem, sp, FrameWords(k.regs, sp + 48)) + scratch
  }

  /** The interrupted code's registers are on its stack, untouched by the handler. */
  lemma OwnFrame(k: System, scratch: Mem)
    requires Formed(k) && Allowed(k, Interrupt(scratch))
    ensures FrameAt(HandlerMem(k, scratch), k.regs.esp - FRAME_SIZE, k.regs)
  {
    var sp := k.regs.esp - FRAME_SIZE;
    SaveRestore(k.mem, k.regs, sp + 48);
    FrameKept(Store(k.mem, sp, FrameWords(k.regs, sp + 48)), HandlerMem(k, scratch), Region(sp, k.regs.esp), sp, k.regs);
  }

  /** The other threads' frames are untouched as well. */
  lemma OtherFrame(k: System, scratch: Mem, p: Ptr)
    requires SystemInv(k) && Allowed(k, Interrupt(scratch))
    requires p < |k.m.s.tcbs| && k.m.s.current != Some(p) && IsReady(k.m.s.tcbs[p])
    ensures FrameAt(HandlerMem(k, scratch), k.m.s.tcbs[p].esp0, k.saved[p])
    ensures k.stacks[p].lo <= k.m.s.tcbs[p].esp0 && k.m.s.tcbs[p].esp0 + FRAME_SIZE <= k.stacks[p].hi
  {
    hide Sound, Store, FrameAt;
    var sp := k.regs.esp - FRAME_SIZE;
    assert Stacked(k, p);
    assert Apart(k.stacks[p], Here(k));
    InterruptKeeps(k.mem, k.stacks[p], Here(k), sp, FrameWords(k.regs, sp + 48), scratch);
    FrameKept(k.mem, HandlerMem(k, scratch), k.stacks[p], k.m.s.tcbs[p].esp0, k.saved[p]);
  }

  /** After the outgoing thread is retired, whoever can run has its registers stacked. */
  lemma RetireStacks(k: System, scratch: Mem, p: Ptr)
    requires SystemInv(k) && Allowed(k, Interrupt(scratch)) && k.m.s.current.Some?
    requires k.m.s.tcbs[k.m.s.current.value].quantum == 0
    requires p < |k.m.s.tcbs| && IsReady(Retire(k.m.s, k.regs.esp - FRAME_SIZE).tcbs[p])
    ensures var (t, k') := (Retire(k.m.s, k.regs.esp - FRAME_SIZE).tcbs[p], Perform(k, Interrupt(scratch)));
      && k.stacks[p].lo <= t.esp0 && t.esp0 + FRAME_SIZE <= k.stacks[p].hi
      && k'.mem == HandlerMem(k, scratch) && p < |k'.saved|
      && FrameAt(k'.mem, t.esp0, k'.saved[p])
  {
    hide Sound, FrameAt, Store, FrameWords, Load, Restored, Dispatch, Scan;
    if p == k.m.s.current.value {
      OwnFrame(k, scratch);
    } else {
      OtherFrame(k, scratch, p);
    }
  }

  /** A tick that switches: who runs next, and which stack pointer it gets. */
  lemma SwitchFacts(m: Machine, sp: word) returns (p: Ptr)
    requires Sound(m) && m.s.current.Some? && m.s.tcbs[m.s.current.value].quantum == 0 && Enabled(m, Tick(sp))
    ensures p < |m.s.tcbs| == |Retire(m.s, sp).tcbs| && IsReady(Retire(m.s, sp).tcbs[p])
    ensures Step(m, Tick(sp)).s.current == Some(p) && |Step(m, Tick(sp)).s.tcbs| == |m.s.tcbs|
    ensures TaskSwitch(m.s, sp).value.1 == Retire(m.s, sp).tcbs[p].esp0
    ensures forall q :: 0 <= q < |m.s.tcbs| && q != p ==> Step(m, Tick(sp)).s.tcbs[q] == Retire(m.s, sp).tcbs[q]
  {
    var r := Retire(m.s, sp);
    ScanBelow(r);
    p := r.slots[Scan(r).value].value;
  }

  lemma InterruptFields(k: System, scratch: Mem)
    requires SystemInv(k) && Allowed(k, Interrupt(scratch))
    ensures var (k', sp) := (Perform(k, Interrupt(scratch)), k.regs.esp - FRAME_SIZE);
      && 0 <= sp < WORD && Enabled(k.m, Tick(sp)) && k'.m == Step(k.m, Tick(sp)) && k'.mem == HandlerMem(k, scratch)
      && TaskSwitch(k.m.s, sp).Some? && k'.regs == Restored(k'.mem, TaskSwitch(k.m.s, sp).value.1)
      && k'.stacks == k.stacks && k'.boot == k.boot && |k'.saved| == |k.saved|
      && ((k.m.s.current.Some? ==> k.m.s.tcbs[k.m.s.current.value].quantum > 0) ==>
            k'.saved == k.saved && TaskSwitch(k.m.s, sp).value.1 == sp && k'.m.s.current == k.m.s.current && |k'.m.s.tcbs| == |k.m.s.tcbs|
            && forall p :: 0 <= p < |k.m.s.tcbs| && k.m.s.current != Some(p) ==> k'.m.s.tcbs[p] == k.m.s.tcbs[p])
  {
  }

  lemma SeparateKept(k: System, k': System)
    requires Formed(k) && Formed(k') && Separate(k)
    requires k'.stacks == k.stacks && k'.boot == k.boot && k'.m.s.current.Some? == k.m.s.current.Some?
    ensures Separate(k')
  {
  }

  lemma SwitchResumes(k: System, scratch: Mem)
    requires SystemInv(k) && Allowed(k, Interrupt(scratch)) && k.m.s.current.Some?
    requires k.m.s.tcbs[k.m.s.current.value].quantum == 0
    ensures var k' := Perform(k, Interrupt(scratch));
      SystemInv(k') && k'.m.s.current.Some? && k'.regs == k'.saved[k'.m.s.current.value]
  {
    hide Sound, FrameAt, TaskSwitch, Retire, Restored, Enabled, Step, Perform, HandlerMem, Allowed, Separate;
    var (k', sp) := (Perform(k, Interrupt(scratch)), k.regs.esp - FRAME_SIZE);
    InterruptFields(k, scratch);
    StepKeepsSound(k.m, Tick(sp));
    SoundShaped(k'.m);
    var i := SwitchFacts(k.m, sp);
    SeparateKept(k, k');
    RetireStacks(k, scratch, i);
    FrameRestores(k'.mem, Retire(k.m.s, sp).tcbs[i].esp0, k'.saved[i]);
    forall p | 0 <= p < |k'.m.s.tcbs| && k'.m.s.current != Some(p) ensures Stacked(k', p) {
      if IsReady(k'.m.s.tcbs[p]) {
        RetireStacks(k, scratch, p);
      }
    }
  }

  lemma TickResumes(k: System, scratch: Mem)
    requires SystemInv(k) && Allowed(k, Interrupt(scratch))
    requires k.m.s.current.Some? ==> k.m.s.tcbs[k.m.s.current.value].quantum > 0
    ensures var k' := Perform(k, Interrupt(scratch));
      SystemInv(k') && k'.m.s.current == k.m.s.current && k'.regs == k.regs && k'.saved == k.saved
  {
    hide Sound, FrameAt, TaskSwitch, Restored, Enabled, Step, Perform, HandlerMem, Allowed, Separate;
    var (k', sp) := (Perform(k, Interrupt(scratch)), k.regs.esp - FRAME_SIZE);
    InterruptFields(k, scratch);
    StepKeepsSound(k.m, Tick(sp));
    SoundShaped(k'.m);
    SeparateKept(k, k');
    OwnFrame(k, scratch);
    FrameRestores(k'.mem, sp, k.regs);
    forall p | 0 <= p < |k'.m.s.tcbs| && k'.m.s.current != Some(p) ensures Stacked(k', p) {
      if IsReady(k'.m.s.tcbs[p]) {
        assert k'.m.s.tcbs[p] == k.m.s.tcbs[p];
        OtherFrame(k, scratch, p);
      }
    }
  }

  // ----- whole runs of the system -----

  ghost predicate Possible(k: System, xs: seq<Action>)
    decreases |xs|
  {
    xs == [] || (Formed(k) && Allowed(k, xs[0]) && Possible(Perform(k, xs[0]), xs[1..]))
  }

  ghost function Final(k: System, xs: seq<Action>): System
    requires Possible(k, xs)
    decreases |xs|
  {
    if xs == [] then k else Final(Perform(k, xs[0]), xs[1..])
  }

  /** The boot code, before any thread exists, starts such a run. */
  lemma BootSystemInv(regs: Regs, mem: Mem, boot: Region)
    ensures SystemInv(System(BOOT, regs, mem, [], boot, []))
  {
    BootSound();
  }

  lemma PerformKeepsInv(k: System, x: Action)
    requires SystemInv(k) && Allowed(k, x)
    ensures SystemInv(Perform(k, x))
  {
    if x.Work? {
      WorkKeepsInv(k, x);
    } else if k.m.s.current.Some? && k.m.s.tcbs[k.m.s.current.value].quantum == 0 {
      SwitchResumes(k, x.scratch);
    } else {
      TickResumes(k, x.scratch);
    }
  }

  lemma {:induction false} RunKeepsSystem(k: System, xs: seq<Action>)
    requires SystemInv(k) && Possible(k, xs)
    ensures SystemInv(Final(k, xs))
    decreases |xs|
  {
    if xs != [] {
      PerformKeepsInv(k, xs[0]);
      RunKeepsSystem(Perform(k, xs[0]), xs[1..]);
    }
  }

  /** Context preservation.  After any run of the system, an interrupt gives the code it
      returns to every register it had: those it was just interrupted with when the
      slice goes on, and those its thread was last suspended with (or the first ones)
      after a switch. */
  lemma ContextPreserved(k: System, xs: seq<Action>, scratch: Mem)
    requires SystemInv(k) && Possible(k, xs) && Formed(Final(k, xs))
    requires Allowed(Final(k, xs), Interrupt(scratch)) && Final(k, xs).m.s.current.Some?
    ensures var (n, n') := (Final(k, xs), Perform(Final(k, xs), Interrupt(scratch)));
      && n'.m.s.current.Some? && n'.m.s.current.value < |n'.saved|
      && (if n.m.s.tcbs[n.m.s.current.value].quantum > 0
          then n'.m.s.current == n.m.s.current && n'.regs == n.regs && n'.saved == n.saved
          else n'.regs == n'.saved[n'.m.s.current.value])
  {
    RunKeepsSystem(k, xs);
    var n := Final(k, xs);
    if n.m.s.tcbs[n.m.s.current.value].quantum == 0 {
      SwitchResumes(n, scratch);
    } else {
      TickResumes(n, scratch);
    }
  }

  // ----- a thread's first dispatch -----

  /** Thread p is not current at any point of the run. */
  ghost predicate NeverCurrent(k: System, xs: seq<Action>, p: Ptr)
    requires Possible(k, xs)
    decreases |xs|
  {
    k.m.s.current != Some(p) && (xs == [] || NeverCurrent(Perform(k, xs[0]), xs[1..], p))
  }

  lemma PerformKeepsSaved(k: System, x: Action, p: Ptr)
    requires Formed(k) && Allowed(k, x) && p < |k.saved| && k.m.s.current != Some(p) && Perform(k, x).m.s.current != Some(p)
    requires Sound(k.m)
    ensures var k' := Perform(k, x);
      p < |k'.saved| && p < |k'.stacks| && k'.saved[p] == k.saved[p] && k'.stacks[p] == k.stacks[p]
  {
    if x.Work? {
      WorkFields(k, x, p);
      if x.e == Some(StartScheduler) {
        assert k.m.s.slots[0] == Some(0);
      }
    }
  }

  /** Until it is dispatched, what is saved for a thread stays saved, and its stack is its own. */
  lemma {:induction false} KeepsSaved(k: System, xs: seq<Action>, p: Ptr)
    requires SystemInv(k) && Possible(k, xs) && p < |k.saved| && NeverCurrent(k, xs, p)
    ensures var n := Final(k, xs);
      p < |n.saved| && p < |n.stacks| && n.saved[p] == k.saved[p] && n.stacks[p] == k.stacks[p] && n.m.s.current != Some(p)
    decreases |xs|
  {
    hide Perform, Allowed, Sound;
    if xs != [] {
      PerformKeepsSaved(k, xs[0], p);
      PerformKeepsInv(k, xs[0]);
      KeepsSaved(Perform(k, xs[0]), xs[1..], p);
    }
  }

  /** However long it takes, the first dispatch of a thread gives it the registers it is to start
      with, and the next timer interrupt can come at once. */
  lemma FirstDispatch(k: System, base: word, regs: Regs, mem: Mem, entry: word, xs: seq<Action>, scratch: Mem)
    requires SystemInv(k) && Allowed(k, Work(Some(CreateStore(base)), regs, mem, entry))
    requires var k1 := Perform(k, Work(Some(CreateStore(base)), regs, mem, entry));
      Possible(k1, xs) && NeverCurrent(k1, xs, |k.m.s.tcbs|)
    requires var n := Final(Perform(k, Work(Some(CreateStore(base)), regs, mem, entry)), xs);
      && Formed(n) && Allowed(n, Interrupt(scratch)) && Perform(n, Interrupt(scratch)).m.s.current == Some(|k.m.s.tcbs|)
    ensures var n' := Perform(Final(Perform(k, Work(Some(CreateStore(base)), regs, mem, entry)), xs), Interrupt(scratch));
      && Starts(n'.regs, base + 0x200, entry) && Formed(n') && Allowed(n', Interrupt(map[]))
  {
    var (x, p) := (Work(Some(CreateStore(base)), regs, mem, entry), |k.m.s.tcbs|);
    var k1 := Perform(k, x);
    PerformKeepsInv(k, x);
    assert k1.saved[p] == FirstRegs(base + STACK_SIZE, entry) && k1.stacks[p] == Region(base, base + STACK_SIZE);
    KeepsSaved(k1, xs, p);
    var n := Final(k1, xs);
    RunKeepsSystem(k1, xs);
    StartsRunning(n, scratch, p, base, entry);
  }

  lemma StartsRunning(n: System, scratch: Mem, p: Ptr, base: word, entry: word)
    requires SystemInv(n) && Allowed(n, Interrupt(scratch)) && p < |n.saved| && n.m.s.current != Some(p)
    requires base + STACK_SIZE < WORD && n.saved[p] == FirstRegs(base + STACK_SIZE, entry)
    requires n.stacks[p] == Region(base, base + STACK_SIZE) && Perform(n, Interrupt(scratch)).m.s.current == Some(p)
    ensures var n' := Perform(n, Interrupt(scratch));
      Starts(n'.regs, base + 0x200, entry) && Formed(n') && Allowed(n', Interrupt(map[]))
  {
    var n' := Perform(n, Interrupt(scratch));
    InterruptFields(n, scratch);
    assert n.m.s.current.Some? && n.m.s.tcbs[n.m.s.current.value].quantum == 0;
    SwitchResumes(n, scratch);
    FreshSlice(n.m, n.regs.esp - FRAME_SIZE);
    PerformSaves(n, scratch, p);
    FirstRegsStart(base + STACK_SIZE, entry);
    hide Perform, Sound, Separate, FrameAt, Step, Enabled, FirstRegs, HandlerMem, Restored, Stacked, TaskSwitch;
    assert Here(n') == Region(base, base + STACK_SIZE);
  }

  lemma PerformSaves(k: System, scratch: Mem, p: Ptr)
    requires Formed(k) && Allowed(k, Interrupt(scratch)) && p < |k.saved| && k.m.s.current != Some(p)
    ensures var k' := Perform(k, Interrupt(scratch)); p < |k'.saved| && k'.saved[p] == k.saved[p] && k'.stacks == k.stacks
  {
  }

  lemma FreshSlice(m: Machine, sp: word)
    requires Sound(m) && Enabled(m, Tick(sp)) && m.s.current.Some? && m.s.tcbs[m.s.current.value].quantum == 0
    ensures var m' := Step(m, Tick(sp));
      && Shaped(m') && m'.s.current.Some? && m'.s.tcbs[m'.s.current.value].quantum > 0
      && forall e :: Enabled(m', Tick(e))
  {
    var r := Retire(m.s, sp);
    ScanBelow(r);
    hide Scan;
    assert Bounded(m.s.tcbs[r.slots[Scan(r).value].value]);
  }
}
