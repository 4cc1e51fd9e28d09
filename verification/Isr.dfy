/** isr.s and the stack building of create_kernel_thread, push by push. */
module Isr {
  import opened Words
  import opened SchedModel
  import opened Context
  import Process

  lemma {:induction false} StoreBelow(mem: Mem, a: int, f: seq<word>, b: int, v: word)
    requires b < a
    ensures Store(mem, a, f)[b := v] == Store(mem[b := v], a, f)
    decreases |f|
  {
    if f != [] {
      StoreBelow(mem[a := f[0]], a + 4, f[1..], b, v);
      assert mem[a := f[0]][b := v] == mem[b := v][a := f[0]];
    }
  }

  lemma EmptyStore(mem: Mem, a: int)
    ensures Store(mem, a, []) == mem
  {
  }

  lemma FrameIs(o: Regs, f: seq<word>)
    requires o.esp >= 12
    requires f == [o.ds, o.es, o.fs, o.gs, o.edi, o.esi, o.ebp, o.esp - 12, o.ebx, o.edx, o.ecx, o.eax] + [o.eip, o.cs, o.eflags]
    ensures f == FrameWords(o, o.esp - 12)
  {
  }

  class Cpu {
    var r: Regs
    var mem: Mem

    constructor (regs: Regs, memory: Mem)
      ensures r == regs && mem == memory
    {
      r := regs;
      mem := memory;
    }

    /** push, onto the words f already pushed over the memory base. */
    method Push(v: word, ghost base: Mem, ghost f: seq<word>) returns (ghost f': seq<word>)
      requires r.esp >= 4 && mem == Store(base, r.esp, f)
      modifies this
      ensures r == old(r).(esp := old(r).esp - 4)
      ensures f' == [v] + f && mem == Store(base, r.esp, f')
    {
      StoreBelow(base, r.esp, f, r.esp - 4, v);
      f' := [v] + f;
      r := r.(esp := r.esp - 4);
      mem := mem[r.esp := v];
    }

    /** pop, on a stack that does not end at the top of memory. */
    method Pop() returns (v: word)
      requires r.esp < WORD - 4
      modifies this`r
      ensures v == Load(mem, old(r).esp) && r == old(r).(esp := old(r).esp + 4)
    {
      v := Load(mem, r.esp);
      r := r.(esp := r.esp + 4);
    }

    /** pushad; the stack pointer pushed is the one found on entry. */
    method PushAd(ghost base: Mem, ghost f: seq<word>) returns (ghost f': seq<word>)
      requires r.esp >= 32 && mem == Store(base, r.esp, f)
      modifies this
      ensures r == old(r).(esp := old(r).esp - 32) && mem == Store(base, r.esp, f')
      ensures f' == [r.edi, r.esi, r.ebp, old(r).esp, r.ebx, r.edx, r.ecx, r.eax] + f
    {
      hide Store;
      var temp := r.esp;
      f' := Push(r.eax, base, f);
      f' := Push(r.ecx, base, f');
      f' := Push(r.edx, base, f');
      f' := Push(r.ebx, base, f');
      f' := Push(temp, base, f');
      f' := Push(r.ebp, base, f');
      f' := Push(r.esi, base, f');
      f' := Push(r.edi, base, f');
    }

    method PopAd()
      requires r.esp < WORD - 32
      modifies this`r
      ensures var (o, a) := (old(r), old(r).esp);
        r == Regs(Load(mem, a + 28), Load(mem, a + 24), Load(mem, a + 20), Load(mem, a + 16), a + 32,
                  Load(mem, a + 8), Load(mem, a + 4), Load(mem, a), o.ds, o.es, o.fs, o.gs, o.eip, o.cs, o.eflags)
    {
      hide Load;
      var edi := Pop();
      var esi := Pop();
      var ebp := Pop();
      var skipped := Pop();
      var ebx := Pop();
      var edx := Pop();
      var ecx := Pop();
      var eax := Pop();
      r := Regs(eax, ecx, edx, ebx, r.esp, ebp, esi, edi, r.ds, r.es, r.fs, r.gs, r.eip, r.cs, r.eflags);
    }

    /** MACRO_REGS_SAVE. */
    method RegsSave(ghost base: Mem, ghost f: seq<word>) returns (ghost f': seq<word>)
      requires r.esp >= 48 && mem == Store(base, r.esp, f)
      modifies this
      ensures r == old(r).(esp := old(r).esp - 48, ebx := 0x20, ds := 0x20, es := 0x20, fs := 0x20, gs := 0x20)
      ensures mem == Store(base, r.esp, f')
      ensures var o := old(r);
        f' == [o.ds, o.es, o.fs, o.gs, o.edi, o.esi, o.ebp, o.esp, o.ebx, o.edx, o.ecx, o.eax] + f
    {
      hide Store;
      f' := PushAd(base, f);
      f' := Push(r.gs, base, f');
      f' := Push(r.fs, base, f');
      f' := Push(r.es, base, f');
      f' := Push(r.ds, base, f');
      r := r.(ebx := 0x20);
      r := r.(ds := 0x20);
      r := r.(es := 0x20);
      r := r.(fs := 0x20);
      r := r.(gs := 0x20);
    }

    /** MACRO_REGS_RESTORE; the writes to the interrupt controllers go elsewhere. */
    method RegsRestore()
      requires r.esp < WORD - 48
      modifies this`r
      ensures var (o, a) := (old(r), old(r).esp);
        r == Regs(Load(mem, a + 44), Load(mem, a + 40), Load(mem, a + 36), Load(mem, a + 32), a + 48,
                  Load(mem, a + 24), Load(mem, a + 20), Load(mem, a + 16),
                  Load(mem, a), Load(mem, a + 4), Load(mem, a + 8), Load(mem, a + 12), o.eip, o.cs, o.eflags)
    {
      hide Load;
      r := r.(eax := r.eax - r.eax % 0x100 + 0x20);
      var ds := Pop();
      var es := Pop();
      var fs := Pop();
      var gs := Pop();
      r := r.(ds := ds, es := es, fs := fs, gs := gs);
      PopAd();
    }

    /** The hardware's part of an interrupt. */
    method Enter(ghost base: Mem) returns (ghost f: seq<word>)
      requires r.esp >= 12 && mem == base == Store(base, r.esp, [])
      modifies this
      ensures r == old(r).(esp := old(r).esp - 12) && mem == Store(base, r.esp, f)
      ensures f == [old(r).eip, old(r).cs, old(r).eflags]
    {
      f := Push(r.eflags, base, []);
      f := Push(r.cs, base, f);
      f := Push(r.eip, base, f);
    }

    method Iret()
      requires r.esp < WORD - 12
      modifies this`r
      ensures var (o, a) := (old(r), old(r).esp);
        r == o.(eip := Load(mem, a), cs := Load(mem, a + 4), eflags := Load(mem, a + 8), esp := a + 12)
    {
      hide Load;
      var eip := Pop();
      var cs := Pop();
      var eflags := Pop();
      r := r.(eip := eip, cs := cs, eflags := eflags);
    }

    /** Interrupt entry and MACRO_REGS_SAVE: the whole frame. */
    method SaveContext()
      requires FRAME_SIZE <= r.esp
      modifies this
      ensures r.esp == old(r).esp - FRAME_SIZE
      ensures mem == Store(old(mem), r.esp, FrameWords(old(r), r.esp + 48))
    {
      hide Store, FrameWords;
      EmptyStore(mem, r.esp);
      ghost var f := Enter(mem);
      f := RegsSave(old(mem), f);
      FrameIs(old(r), f);
    }

    /** mov esp, eax; MACRO_REGS_RESTORE; iret. */
    method RestoreContext(esp: word)
      requires esp + FRAME_SIZE < WORD
      modifies this`r
      ensures r == Restored(mem, esp)
    {
      hide Load;
      r := r.(esp := esp);
      RegsRestore();
      Iret();
    }

    /** x86InterruptHandler20: save, call __task_switch, continue on the stack it returns.
        The call itself and the C code below it write scratch under the frame. */
    method Handler20(sched: Process.Scheduler, scratch: Mem)
      requires FRAME_SIZE <= r.esp && sched.Valid() && TaskSwitch(sched.view, r.esp - FRAME_SIZE).Some?
      requires TaskSwitch(sched.view, r.esp - FRAME_SIZE).value.1 + FRAME_SIZE < WORD
      modifies this, sched, sched.all
      ensures var (o, sp) := (old(r), old(r).esp - FRAME_SIZE);
        && sched.Valid() && sched.view == TaskSwitch(old(sched.view), sp).value.0
        && mem == Store(old(mem), sp, FrameWords(o, sp + 48)) + scratch
        && r == Restored(mem, TaskSwitch(old(sched.view), sp).value.1)
    {
      hide Store, Load, FrameWords, Restored, TaskSwitch, Typed;
      SaveContext();
      mem := mem + scratch;
      var esp := sched.TaskSwitch(r.esp);
      RestoreContext(esp);
    }

    /** The fifteen stores of create_kernel_thread below the top of a new stack. */
    method BuildFrame(top: word, eip: word) returns (stack: word)
      requires top >= FRAME_SIZE
      modifies this`mem
      ensures stack == top - FRAME_SIZE && mem == Store(old(mem), stack, InitialFrame(eip))
    {
      ghost var f := [];
      stack := top;
      stack, f := Put(stack, START_FLAGS, old(mem), f);
      stack, f := Put(stack, KERNEL_CODE_SELECTOR, old(mem), f);
      stack, f := Put(stack, eip, old(mem), f);
      var i := 0;
      while i < 8
        invariant 0 <= i <= 8 && stack == top - 12 - 4 * i && mem == Store(old(mem), stack, f)
        invariant f == Zeros(i) + [eip, KERNEL_CODE_SELECTOR, START_FLAGS]
      {
        stack, f := Put(stack, 0, old(mem), f);
        i := i + 1;
      }
      stack, f := Put(stack, KERNEL_DATA_SELECTOR, old(mem), f);
      stack, f := Put(stack, KERNEL_DATA_SELECTOR, old(mem), f);
      stack, f := Put(stack, KERNEL_DATA_SELECTOR, old(mem), f);
      stack, f := Put(stack, KERNEL_DATA_SELECTOR, old(mem), f);
      assert Zeros(8) == [0, 0, 0, 0, 0, 0, 0, 0];
      assert f == InitialFrame(eip);
    }

    /** *--stack = v */
    method Put(stack: word, v: word, ghost base: Mem, ghost f: seq<word>) returns (stack': word, ghost f': seq<word>)
      requires stack >= 4 && mem == Store(base, stack, f)
      modifies this`mem
      ensures stack' == stack - 4 && f' == [v] + f && mem == Store(base, stack', f')
    {
      StoreBelow(base, stack, f, stack - 4, v);
      stack' := stack - 4;
      mem := mem[stack' := v];
      f' := [v] + f;
    }
  }

  ghost function Zeros(n: nat): seq<word> {
    seq(n, _ => 0)
  }
}
