/** process.c on real objects: thread structs, the slot table and the thread list.

    `view` is the scheduler's state as a value.  Each method changes the objects the
    way the code does and leaves `view` equal to the function of the old view that the
    scheduler theorems are about.
 */
module Process {
  import opened Words
  import opened Sequences
  import opened SchedModel
  import opened Rings

  class KernelThread {
    var id: nat
    var priority: int
    var status: Status
    var esp0: word
    var esp0base: word
    var time: word
    var quantum: word
    const list: ListHead
    ghost const ix: Ptr

    ghost function Block(): Tcb
      reads this
    {
      Tcb(id, priority, status, esp0, esp0base, time, quantum)
    }

    constructor (pid: nat, base: word, node: ListHead, ghost address: Ptr)
      ensures Block() == Tcb(pid, 0, Ready, Wrap(base + STACK_SIZE - FRAME_SIZE), base, 0, 0)
      ensures list == node && ix == address
    {
      status := Ready;
      esp0base := base;
      id := pid;
      time := 0;
      esp0 := Wrap(base + STACK_SIZE - FRAME_SIZE);
      quantum := 0;
      priority := 0;
      list := node;
      ix := address;
    }
  }

  ghost function Address(t: KernelThread?): Option<Ptr> {
    if t == null then None else Some(t.ix)
  }

  ghost predicate Below(list: seq<Ptr>, n: nat) {
    forall i :: 0 <= i < |list| ==> list[i] < n
  }

  /** The list nodes of the threads named by list. */
  ghost function NodesOf(nodes: seq<ListHead>, list: seq<Ptr>): (s: seq<ListHead>)
    requires Below(list, |nodes|)
    ensures |s| == |list|
  {
    if list == [] then [] else [nodes[list[0]]] + NodesOf(nodes, list[1..])
  }

  lemma {:induction false} NodesAt(nodes: seq<ListHead>, list: seq<Ptr>, k: nat)
    requires k < |list| && Below(list, |nodes|)
    ensures NodesOf(nodes, list)[k] == nodes[list[k]]
  {
    if k > 0 {
      NodesAt(nodes, list[1..], k - 1);
    }
  }

  lemma WithoutBelow(list: seq<Ptr>, p: Ptr, n: nat)
    requires Below(list, n)
    ensures Below(Without(list, p), n)
  {
    WithoutMembers(list, p);
    var rest: seq<Ptr> := Without(list, p);
    hide Without;
    forall i | 0 <= i < |rest| ensures rest[i] < n {
      assert rest[i] in rest;
    }
  }

  lemma {:induction false} NodesWithout(nodes: seq<ListHead>, list: seq<Ptr>, p: Ptr)
    requires p < |nodes| && Distinct(nodes) && Below(list, |nodes|) && Below(Without(list, p), |nodes|)
    ensures Without(NodesOf(nodes, list), nodes[p]) == NodesOf(nodes, Without(list, p))
  {
    if list != [] {
      WithoutBelow(list[1..], p, |nodes|);
      NodesWithout(nodes, list[1..], p);
      assert NodesOf(nodes, list)[1..] == NodesOf(nodes, list[1..]);
      if list[0] == p {
        assert Without(list, p) == Without(list[1..], p);
      } else {
        assert nodes[list[0]] != nodes[p];
        assert Without(list, p)[0] == list[0] && Without(list, p)[1..] == Without(list[1..], p);
      }
    }
  }

  /** What is left of the scan ends at the target, below numThreads or above it. */
  ghost predicate Ahead(s: Sched, c: nat, rounds: nat, target: nat)
    requires Typed(s)
  {
    if c < s.num then FirstRunnable(s, c, rounds) == Some(target) else FirstAbove(s, c + 1) == Some(target)
  }

  lemma AheadStep(s: Sched, c: nat, rounds: nat, target: nat)
    requires Typed(s) && Ahead(s, c, rounds, target)
    ensures var c' := if c + 1 == s.num then 0 else c + 1;
      && c' < MAX_THREADS && (c < s.num ==> rounds > 0) && c < MAX_THREADS
      && (if Dispatchable(s, c') then c' == target else Ahead(s, c', if c < s.num then rounds - 1 else rounds, target))
  {
  }

  class Scheduler {
    var currentTask: nat
    var numThreads: nat
    var pCurrentTask: KernelThread?
    const pThreads: array<KernelThread?>
    const lists: Lists
    const lThreads: ListHead
    ghost var all: seq<KernelThread>
    ghost var nodes: seq<ListHead>
    ghost var view: Sched

    /** The ring of lThreads is the given list; a thread off the list is on no ring. */
    ghost predicate Linked(nodes: seq<ListHead>, list: seq<Ptr>)
      reads lists, lists.web.next.Keys, lists.web.prev.Keys
    {
      && lists.Valid() && lThreads in lists.web.rings && Distinct(nodes)
      && Below(list, |nodes|)
      && lists.web.rings[lThreads] == NodesOf(nodes, list)
      && (forall p :: 0 <= p < |nodes| && p !in list ==> nodes[p] !in lists.web.owner)
    }

    /** The slot table, the structs and the counter are what v says. */
    ghost predicate Backed(v: Sched)
      reads this`numThreads, this`all, this`nodes, pThreads, all
    {
      && Typed(v) && pThreads.Length == MAX_THREADS && |all| == |nodes| == |v.tcbs| && v.num == numThreads
      && (forall p :: 0 <= p < |all| ==> all[p].ix == p && all[p].list == nodes[p] && all[p].Block() == v.tcbs[p])
      && (forall i :: 0 <= i < MAX_THREADS ==> Address(pThreads[i]) == v.slots[i])
      && (forall i :: 0 <= i < MAX_THREADS && pThreads[i] != null ==> pThreads[i] in all)
    }

    ghost predicate Valid()
      reads this, pThreads, all
    {
      && Backed(view)
      && currentTask == view.currentTask && Address(pCurrentTask) == view.current
      && (pCurrentTask != null ==> pCurrentTask in all)
    }

    /** The cleared table of init_multitasking and the empty thread list. */
    constructor ()
      ensures Valid() && view == Sched(0, None, seq(MAX_THREADS, _ => None), 0, [], [])
      ensures Linked(nodes, view.list) && all == [] && fresh(pThreads) && fresh(lists)
    {
      currentTask := 0;
      numThreads := 0;
      pCurrentTask := null;
      pThreads := new KernelThread?[MAX_THREADS](_ => null);
      all := [];
      nodes := [];
      view := Sched(0, None, seq(MAX_THREADS, _ => None), 0, [], []);
      var node := new ListHead();
      var web := new Lists();
      lThreads := node;
      lists := web;
      new;
      lists.Init(lThreads);
    }

    lemma CurrentBlock()
      requires Valid() && pCurrentTask != null
      ensures Typed(view) && view.current.Some? && pCurrentTask in all
      ensures pCurrentTask.Block() == view.tcbs[view.current.value]
      ensures view.current.value < |nodes| && nodes[view.current.value] == pCurrentTask.list
    {
    }

    lemma SlotBlock(i: nat)
      requires Backed(view)
      ensures Typed(view) && view.num == numThreads <= MAX_THREADS == pThreads.Length
      ensures i < MAX_THREADS && pThreads[i] != null ==>
        pThreads[i] in all && (Dispatchable(view, i) <==> pThreads[i].status == Ready || pThreads[i].status == Wait)
      ensures i < MAX_THREADS && pThreads[i] == null ==> !Dispatchable(view, i)
    {
    }

    lemma ThreadBlock(t: KernelThread)
      requires Backed(view) && t in all
      ensures Typed(view) && t.ix < |nodes| == |view.tcbs|
      ensures view.tcbs[t.ix] == t.Block() && nodes[t.ix] == t.list
    {
    }

    /** A tick inside a slice. */
    method AccountTick()
      requires Valid() && pCurrentTask != null && pCurrentTask.quantum > 0
      modifies this`view, pCurrentTask`time, pCurrentTask`quantum
      ensures Valid() && view == Account(old(view))
    {
      pCurrentTask.time := Wrap(pCurrentTask.time + 1);
      pCurrentTask.quantum := pCurrentTask.quantum - 1;
      view := Account(view);
    }

    /** The end of a slice: reap a zombie, put any other thread back in the queue. */
    method RetireCurrent(currentESP: word)
      requires Valid() && pCurrentTask != null && pCurrentTask.quantum == 0
      modifies this`view, pCurrentTask
      ensures Valid() && view == Retire(old(view), currentESP)
    {
      ghost var c := view.current.value;
      assert pCurrentTask == all[c];
      if pCurrentTask.status == Zombie {
        pCurrentTask.id := 0;
        pCurrentTask.esp0 := pCurrentTask.esp0base;
        pCurrentTask.status := Free;
      } else if pCurrentTask.quantum == 0 {
        pCurrentTask.time := Wrap(pCurrentTask.time + 1);
        pCurrentTask.esp0 := currentESP;
        pCurrentTask.status := Wait;
      }
      view := Retire(view, currentESP);
      assert pCurrentTask.Block() == view.tcbs[c];
    }

    /** One slot of the scan: its thread becomes pCurrentTask even if it cannot run. */
    method Probe() returns (found: bool)
      requires Backed(view) && currentTask < MAX_THREADS
      modifies this`pCurrentTask
      ensures Backed(view) && (found <==> Dispatchable(view, currentTask))
      ensures found ==> pCurrentTask != null && pCurrentTask in all && pCurrentTask == pThreads[currentTask]
    {
      hide Backed, Dispatchable;
      SlotBlock(currentTask);
      if pThreads[currentTask] != null {
        pCurrentTask := pThreads[currentTask];
        return pCurrentTask.status == Ready || pCurrentTask.status == Wait;
      }
      return false;
    }

    /** The scan for the next thread. */
    method Scan(ghost target: nat)
      requires Valid() && pCurrentTask != null
      requires SchedModel.Scan(view) == Some(target)
      modifies this`currentTask, this`pCurrentTask
      ensures pCurrentTask in all
      ensures Backed(view) && currentTask == target < MAX_THREADS && pCurrentTask != null && pCurrentTask == pThreads[target]
    {
      ghost var v := view;
      assert Ahead(v, currentTask, v.num, target);
      hide Backed, Ahead, Dispatchable, Typed, SchedModel.Scan, FirstRunnable, FirstAbove, Runnable, NodesOf, Without;
      ghost var rounds := v.num;
      SlotBlock(0);
      while true
        invariant Backed(v) && Ahead(v, currentTask, rounds, target)
        decreases rounds, MAX_THREADS - currentTask
      {
        AheadStep(v, currentTask, rounds, target);
        rounds := if currentTask < numThreads then rounds - 1 else rounds;
        currentTask := currentTask + 1;
        if currentTask == numThreads {
          currentTask := 0;
        }
        var found := Probe();
        if found {
          break;
        }
      }
    }

    /** Gives the thread found a slice and lets it run. */
    method DispatchCurrent(ghost target: nat) returns (esp: word)
      requires Backed(view) && currentTask == target < MAX_THREADS && pCurrentTask != null && pCurrentTask == pThreads[target]
      modifies this`view, pCurrentTask
      ensures Valid() && view.slots == old(view).slots && view == Dispatch(old(view), target)
      ensures esp == old(view).tcbs[old(view).slots[target].value].esp0
    {
      pCurrentTask.quantum := Wrap(INT_PER_SLICE - pCurrentTask.priority);
      pCurrentTask.status := Running;
      view := Dispatch(view, target);
      esp := pCurrentTask.esp0;
    }

    /** __task_switch.  Without the precondition the C code never returns, or leaves the table. */
    method TaskSwitch(currentESP: word) returns (esp: word)
      requires Valid() && SchedModel.TaskSwitch(view, currentESP).Some?
      modifies this, all
      ensures Valid() && all == old(all)
      ensures Some((view, esp)) == SchedModel.TaskSwitch(old(view), currentESP)
    {
      hide Backed, Account, Retire, Dispatch, SchedModel.Scan;
      if pCurrentTask == null {
        return currentESP;
      }
      CurrentBlock();
      if pCurrentTask.quantum > 0 {
        AccountTick();
        return currentESP;
      }
      RetireCurrent(currentESP);
      ghost var target := SchedModel.Scan(view).value;
      ScanBelow(view);
      Scan(target);
      esp := DispatchCurrent(target);
    }

    /** First half of yield; the second half raises the timer interrupt. */
    method ZeroQuantum()
      requires Valid() && pCurrentTask != null
      modifies this`view, pCurrentTask`quantum
      ensures Valid() && view == SetQuantum(old(view), 0)
    {
      pCurrentTask.quantum := 0;
      view := SetQuantum(view, 0);
    }

    /** First statement of kill. */
    method MarkSelfZombie()
      requires Valid() && pCurrentTask != null
      modifies this`view, pCurrentTask`status
      ensures Valid() && view == MarkZombie(old(view))
    {
      pCurrentTask.status := Zombie;
      view := MarkZombie(view);
    }

    /** One store to the slot table, after which the objects are what v says. */
    method StoreSlot(i: nat, t: KernelThread?, ghost v: Sched)
      requires Backed(view) && i < MAX_THREADS && (t != null ==> t in all)
      requires v == view.(slots := view.slots[i := Address(t)], list := v.list)
      modifies pThreads
      ensures Backed(v)
    {
      pThreads[i] := t;
    }

    /** The part of kill between cli and sti. */
    method UnlinkSelf()
      requires Valid() && Linked(nodes, view.list) && pCurrentTask != null && view.current.value in view.list
      modifies this`view, pThreads, lists, lists.web.owner.Keys
      ensures Valid() && view == SchedModel.Unlink(old(view)) && Linked(nodes, view.list)
      ensures pCurrentTask.list.next == null && pCurrentTask.list.prev == null
    {
      hide Linked, Backed;
      CurrentBlock();
      UnlinkNode(pCurrentTask.list, view.current.value, view.list);
      StoreSlot(currentTask, null, SchedModel.Unlink(view));
      view := SchedModel.Unlink(view);
      assert forall x :: x in lists.web.next.Keys ==> x as object != pThreads;
    }

    method UnlinkNode(node: ListHead, ghost c: Ptr, ghost list: seq<Ptr>)
      requires Linked(nodes, list) && c in list && c < |nodes| && nodes[c] == node
      modifies lists, lists.web.owner.Keys
      ensures Linked(nodes, Without(list, c)) && node.next == null && node.prev == null
    {
      hide Without;
      ListedNode(c, list);
      lists.ListDel(node);
    }

    lemma ListedNode(c: Ptr, list: seq<Ptr>)
      requires Linked(nodes, list) && c in list
      ensures c < |nodes| && Entry(lists.web, nodes[c]) && lists.web.owner[nodes[c]] == lThreads
      ensures forall q :: q in Without(list, c) <==> q in list && q != c
      ensures Below(Without(list, c), |nodes|)
      ensures Without(lists.web.rings[lThreads], nodes[c]) == NodesOf(nodes, Without(list, c))
    {
      var k :| 0 <= k < |list| && list[k] == c;
      NodesAt(nodes, list, k);
      assert nodes[c] in lists.web.rings[lThreads];
      HeadOutside(lists.web, lThreads);
      WithoutMembers(list, c);
      WithoutBelow(list, c, |nodes|);
      NodesWithout(nodes, list, c);
    }

    /** nice. */
    method NiceSelf(newPriority: int)
      requires Valid() && pCurrentTask != null
      modifies this`view, pCurrentTask`priority
      ensures Valid() && view == Nice(old(view), old(view).current.value, newPriority)
    {
      if -INT_PER_SLICE < newPriority && newPriority < INT_PER_SLICE {
        pCurrentTask.priority := newPriority;
      }
      view := Nice(view, view.current.value, newPriority);
    }

    /** p_nice. */
    method NiceOther(thread: KernelThread, newPriority: int)
      requires Valid() && thread in all
      modifies this`view, thread`priority
      ensures Valid() && view == Nice(old(view), thread.ix, newPriority)
    {
      if -INT_PER_SLICE < newPriority && newPriority < INT_PER_SLICE {
        thread.priority := newPriority;
      }
      view := Nice(view, thread.ix, newPriority);
    }

    /** The first half of alloc_pid's numThreads++. */
    method ReadCount() returns (pid: nat)
      requires Valid()
      ensures pid == view.num
    {
      pid := numThreads;
    }

    /** Its second half and the rest of create_kernel_thread up to its cli: a numbered,
        initialised, unpublished thread. */
    method NewThread(pid: nat, base: word, node: ListHead) returns (thread: KernelThread)
      requires Valid() && pid < MAX_THREADS
      modifies this`view, this`all, this`nodes, this`numThreads
      ensures Valid() && view == SchedModel.NewThread(old(view), pid, base)
      ensures fresh(thread) && all == old(all) + [thread] && thread.list == node
    {
      thread := new KernelThread(pid, base, node, |all|);
      numThreads := pid + 1;
      all := all + [thread];
      nodes := nodes + [node];
      view := SchedModel.NewThread(view, pid, base);
    }

    /** create_kernel_thread between cli and sti. */
    method PublishThread(thread: KernelThread)
      requires Valid() && Linked(nodes, view.list) && thread in all && thread.ix !in view.list && thread.id < MAX_THREADS
      modifies this`view, pThreads, lists, lists.web.owner.Keys, thread.list
      ensures Valid() && view == Publish(old(view), thread.ix) && Linked(nodes, view.list)
    {
      hide Linked, Backed;
      ThreadBlock(thread);
      PublishNode(thread.list, thread.ix, view.list);
      StoreSlot(thread.id, thread, Publish(view, thread.ix));
      view := Publish(view, thread.ix);
      assert forall x :: x in lists.web.next.Keys ==> x as object != pThreads;
    }

    method PublishNode(node: ListHead, ghost p: Ptr, ghost list: seq<Ptr>)
      requires Linked(nodes, list) && p !in list && p < |nodes| && nodes[p] == node
      modifies lists, lists.web.owner.Keys, node
      ensures Linked(nodes, [p] + list)
    {
      assert ([p] + list)[1..] == list && forall q :: q in [p] + list <==> q == p || q in list;
      lists.ListAdd(node, lThreads);
    }

    /** start_scheduler. */
    method StartScheduler()
      requires Valid() && numThreads > 0 && pThreads[0] != null
      modifies this, pThreads[0]
      ensures Valid() && view == Start(old(view)) && all == old(all)
    {
      if numThreads == MAX_THREADS {
        return;
      }
      currentTask := 0;
      pCurrentTask := pThreads[currentTask];
      pCurrentTask.time := 0;
      pCurrentTask.quantum := 0;
      view := Start(view);
    }
  }
}
