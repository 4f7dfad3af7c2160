// Creating a task and cleaning up after a dead one, on the shared allocators.
module TaskLife {
  import opened Bytes
  import opened SchedulerModel
  import opened BitmapModel
  import opened FrameModel
  import opened FrameAllocators
  import opened TaskResources
  import SR = SchedulerRuns
  import opened Schedulers
  import opened Ipc

  class IdAllocator {
    var next: nat
    var freeList: seq<nat>

    constructor ()
      ensures Value() == Ids(1, [])
    {
      next := 1;
      freeList := [];
    }

    ghost function Value(): Ids
      reads this
    {
      Ids(next, freeList)
    }

    method Alloc() returns (id: nat)
      modifies this
      ensures id == NextId(old(Value())) && Value() == TookId(old(Value()))
      ensures old(freeList) != [] ==> old(freeList) == freeList + [id] && next == old(next)
      ensures old(freeList) == [] ==> id == old(next) && next == id + 1 && freeList == []
    {
      if freeList != [] {
        id := freeList[|freeList| - 1];
        freeList := freeList[..|freeList| - 1];
      } else {
        id := next;
        next := next + 1;
      }
    }

    // The id is the next one handed out, and that undoes this.
    method Free(id: nat)
      modifies this
      ensures Value() == Returned(old(Value()), id)
      ensures NextId(Value()) == id && TookId(Value()) == old(Value())
    {
      assert (freeList + [id])[..|freeList|] == freeList;
      freeList := freeList + [id];
    }
  }

  method TakePageTables(frames: BitmapFrameAllocator, n: nat) returns (ok: bool)
    requires frames.Valid()
    modifies frames`nextFree, frames.bitmap
    ensures frames.Valid() && ok == TakeTables(old(frames.Value()), n).Taken?
    ensures ok <==> n <= |old(frames.Free())|
    ensures ok ==> |frames.Free()| == |old(frames.Free())| - n
    ensures ok ==> frames.Value() == TakeTables(old(frames.Value()), n).frames
  {
    hide Candidate, Allocated, HintLow, IsLeast, FreeFrames, Used;
    ghost var f := frames.Value();
    TakeTablesIff(f, n);
    for i := 0 to n
      invariant frames.Valid() && TakeTables(f, i).Taken? && frames.Value() == TakeTables(f, i).frames
    {
      var r := frames.AllocateFrame();
      if r.None? {
        NoTables(f, i + 1, n);
        return false;
      }
    }
    ok := true;
  }

  lemma {:induction false} NoTables(f: Frames, i: nat, n: nat)
    requires i <= n && TakeTables(f, i).OutOfMemory?
    ensures TakeTables(f, n).OutOfMemory?
  {
    if i < n { NoTables(f, i, n - 1); }
  }

  // The page tables, as far as stacks are concerned: the pages that are mapped.
  class PageTables {
    var mapped: set<nat>

    constructor ()
      ensures mapped == {}
    {
      mapped := {};
    }

    // Maps a page to a new frame, which takes `extra` frames for page tables. None is the kernel
    // stopping, for want of memory or because the page is mapped already.
    method AllocAndMap(page: nat, frames: BitmapFrameAllocator, extra: nat) returns (r: Option<nat>)
      requires frames.Valid()
      modifies this, frames`nextFree, frames.bitmap
      ensures frames.Valid()
      ensures r.Some? <==>
        && page !in old(mapped) && Candidate(old(frames.Value())).Some?
        && TakeTables(Allocated(old(frames.Value())), extra).Taken?
      ensures r.Some? ==> r == Candidate(old(frames.Value())) && mapped == old(mapped) + {page}
      ensures r.Some? ==> frames.Value() == TakeTables(Allocated(old(frames.Value())), extra).frames
    {
      hide Candidate, Allocated;
      r := frames.AllocateFrame();
      if r.None? { return; }
      var ok := TakePageTables(frames, extra);
      if !ok || page in mapped { return None; }
      mapped := mapped + {page};
    }
  }

  // A stack for a new task; mapping its page i takes extra[i] frames for page tables.
  method TakeStackFrames(id: nat, pages: PageTables, frames: BitmapFrameAllocator, extra: seq<nat>)
    returns (r: Option<seq<nat>>)
    requires frames.Valid() && |extra| == STACK_PAGES
    modifies pages, frames`nextFree, frames.bitmap
    ensures frames.Valid()
    ensures r.Some? <==> TakeStack(old(frames.Value()), extra).Taken? && StackPages(id) !! old(pages.mapped)
    ensures r.Some? ==> var t := TakeStack(old(frames.Value()), extra);
      r.value == t.stack && frames.Value() == t.frames && pages.mapped == old(pages.mapped) + StackPages(id)
  {
    hide Candidate, Allocated, FirstPages;
    ghost var f := frames.Value();
    ghost var mapped := pages.mapped;
    var stack: seq<nat> := [];
    assert extra[..0] == [];
    NoPages(id);
    for i := 0 to |extra|
      invariant frames.Valid() && TakeStack(f, extra[..i]).Taken?
      invariant frames.Value() == TakeStack(f, extra[..i]).frames && stack == TakeStack(f, extra[..i]).stack
      invariant pages.mapped == mapped + FirstPages(id, i) && FirstPages(id, i) !! mapped
    {
      assert extra[..i + 1][..i] == extra[..i];
      NextPage(id, i);
      var frame := pages.AllocAndMap(SLOT_PAGES * id + 1 + i, frames, extra[i]);
      if frame.None? {
        StackFails(f, extra, id, i, mapped);
        return None;
      }
      stack := stack + [frame.value];
    }
    assert extra[..|extra|] == extra;
    r := Some(stack);
  }

  lemma NoPages(id: nat)
    ensures FirstPages(id, 0) == {}
  {
  }

  lemma NextPage(id: nat, i: nat)
    requires i < STACK_PAGES
    ensures var p := SLOT_PAGES * id + 1 + i;
      p !in FirstPages(id, i) && FirstPages(id, i + 1) == FirstPages(id, i) + {p} && p in StackPages(id)
  {
  }

  // If page i cannot be had, neither can the stack.
  lemma StackFails(f: Frames, extra: seq<nat>, id: nat, i: nat, mapped: set<nat>)
    requires i < |extra| == STACK_PAGES
    requires SLOT_PAGES * id + 1 + i in mapped || TakeStack(f, extra[..i + 1]).OutOfMemory?
    ensures TakeStack(f, extra).OutOfMemory? || !(StackPages(id) !! mapped)
  {
    NextPage(id, i);
    hide FirstPages;
    if TakeStack(f, extra[..i + 1]).OutOfMemory? { NoStack(f, extra, i + 1); }
  }

  lemma {:induction false} NoStack(f: Frames, extra: seq<nat>, i: nat)
    requires i <= |extra| && TakeStack(f, extra[..i]).OutOfMemory?
    ensures TakeStack(f, extra).OutOfMemory?
  {
    if i == |extra| {
      assert extra[..i] == extra;
    } else {
      assert extra[..|extra| - 1][..i] == extra[..i];
      NoStack(f, extra[..|extra| - 1], i);
    }
  }

  // A ready task with the next id and a stack of its own. None is the kernel stopping.
  method NewTask(ids: IdAllocator, pages: PageTables, frames: BitmapFrameAllocator, priority: Priority, extra: seq<nat>)
    returns (r: Option<Task>)
    requires frames.Valid() && |extra| == STACK_PAGES
    modifies ids, pages, frames`nextFree, frames.bitmap
    ensures frames.Valid() && ids.Value() == TookId(old(ids.Value()))
    ensures var id := NextId(old(ids.Value()));
      r.Some? <==> TakeStack(old(frames.Value()), extra).Taken? && StackPages(id) !! old(pages.mapped)
    ensures r.Some? ==> var t, id := TakeStack(old(frames.Value()), extra), NextId(old(ids.Value()));
      && r.value == Task(id, Ready, priority, t.stack) && frames.Value() == t.frames
      && pages.mapped == old(pages.mapped) + StackPages(id)
  {
    hide TakeStack, StackPages;
    var id := ids.Alloc();
    var stack := TakeStackFrames(id, pages, frames, extra);
    match stack
    case None => r := None;
    case Some(s) => r := Some(Task(id, Ready, priority, s));
  }

  // Returns a dead task's frames and id and removes its mailbox. Its stack stays mapped.
  method CleanupDeadTask(task: Task, ids: IdAllocator, frames: BitmapFrameAllocator, ipc: IpcKernel)
    requires frames.Valid() && ipc.Valid() && forall i :: 0 <= i < |task.frames| ==> task.frames[i] < frames.totalFrames
    modifies ids, frames`nextFree, frames.bitmap, ipc`mailboxes, ipc`accepted, ipc`delivered
    ensures frames.Valid() && frames.Value() == FreeAll(old(frames.Value()), task.frames)
    ensures ids.Value() == Returned(old(ids.Value()), task.id)
    ensures ipc.Valid() && ipc.mailboxes == old(ipc.mailboxes) - {task.id}
  {
    ReturnFrames(task.frames, frames);
    ipc.Unregister(task.id);
    ids.Free(task.id);
  }

  method ReturnFrames(stack: seq<nat>, frames: BitmapFrameAllocator)
    requires frames.Valid() && forall i :: 0 <= i < |stack| ==> stack[i] < frames.totalFrames
    modifies frames`nextFree, frames.bitmap
    ensures frames.Valid() && frames.Value() == FreeAll(old(frames.Value()), stack)
  {
    ghost var f := frames.Value();
    for i := 0 to |stack|
      invariant frames.Valid() && frames.Value() == FreeAll(f, stack[..i])
    {
      var _ := frames.FreeFrame(stack[i]);
      assert stack[..i + 1][..i] == stack[..i];
    }
    assert stack[..|stack|] == stack;
  }

  // The shared scheduler, allocators, page tables and mailboxes. Every operation is a step of the
  // machine.
  class Kernel {
    const sched: Scheduler
    const ids: IdAllocator
    const frames: BitmapFrameAllocator
    const pages: PageTables
    const ipc: IpcKernel
    ghost var tables: set<nat>
    ghost const usable: set<nat>

    constructor (frames: BitmapFrameAllocator, ipc: IpcKernel)
      requires frames.Valid() && frames.nextFree == 0 && ipc.Valid()
      ensures this.frames == frames && this.ipc == ipc && Valid() && Value() == Booted(frames.Free())
    {
      this.frames, this.ipc := frames, ipc;
      sched := new Scheduler();
      ids := new IdAllocator();
      pages := new PageTables();
      tables, usable := {}, frames.Free();
      new;
      BootInv(frames.Free());
      hide MachineInv;
    }

    ghost function Value(): Machine
      requires frames.Valid()
      reads this, sched, ids, frames, frames.bitmap, pages
    {
      Machine(sched.Value(), ids.Value(), frames.Value(), tables, pages.mapped, usable)
    }

    ghost predicate Valid()
      reads this, sched, ids, frames, frames.bitmap, pages, ipc, ipc.table
    {
      && sched.Valid() && frames.Valid() && ipc.Valid() && MachineInv(Value())
      && forall i :: i in usable ==> i < frames.totalFrames
    }

    // Creates a task and hands it to the scheduler. False is the kernel stopping.
    method CreateTask(priority: Priority, extra: seq<nat>) returns (ok: bool)
      requires Valid() && |extra| == STACK_PAGES
      modifies this`tables, sched, ids, frames`nextFree, frames.bitmap, pages
      ensures ok ==> Valid()
      ensures ok <==> old(TaskResources.Possible(Value(), NewTaskOp(priority, extra)))
      ensures ok ==> Value() == MachineStep(old(Value()), NewTaskOp(priority, extra))
    {
      hide MachineInv, TakeStack, StackPages, SR.Inv, SR.Step;
      ghost var m := Value();
      var task := NewTask(ids, pages, frames, priority, extra);
      if task.None? || task.value.id >= SR.MAX_TASKS { return false; }
      assert TaskResources.Possible(m, NewTaskOp(priority, extra));
      NewTaskKeeps(m, priority, extra);
      NewTaskLegal(m, task.value);
      sched.Spawn(task.value);
      tables := tables + TakeStack(m.frames, extra).tables;
      assert Value() == MachineStep(m, NewTaskOp(priority, extra));
      ok := true;
    }

    // Puts the current task back, cleans up after it if it is dead, and picks the next one.
    method Reschedule() returns (oldId: nat, newId: nat)
      requires Valid()
      modifies sched, ids, frames`nextFree, frames.bitmap, ipc`mailboxes, ipc`accepted, ipc`delivered
      ensures Valid() && Value() == MachineStep(old(Value()), SchedOp(SR.RescheduleE))
      ensures oldId == CurrentId(old(sched.Value())) && newId == CurrentId(sched.Value())
      ensures ipc.mailboxes == if Dropped(old(sched.Value())) then old(ipc.mailboxes) - {oldId} else old(ipc.mailboxes)
    {
      hide MachineInv, SR.Inv, SR.Step, FreeAll;
      ghost var m := Value();
      StepKeeps(m, SchedOp(SR.RescheduleE));
      DeadOwnsUsable(m);
      var dead: Option<Task>;
      oldId, newId, dead := sched.Resched();
      if dead.Some? { CleanupDeadTask(dead.value, ids, frames, ipc); }
      assert Value() == MachineStep(m, SchedOp(SR.RescheduleE));
    }

    method BlockCurrent()
      requires Valid()
      modifies sched
      ensures Valid() && Value() == MachineStep(old(Value()), SchedOp(SR.BlockE))
    {
      hide MachineInv, SR.Inv, SR.Step;
      StepKeeps(Value(), SchedOp(SR.BlockE));
      sched.BlockCurrent();
    }

    method KillCurrent()
      requires Valid()
      modifies sched
      ensures Valid() && Value() == MachineStep(old(Value()), SchedOp(SR.KillE))
    {
      hide MachineInv, SR.Inv, SR.Step;
      StepKeeps(Value(), SchedOp(SR.KillE));
      sched.KillCurrent();
    }

    method Wake(id: nat) returns (woken: bool)
      requires Valid()
      modifies sched
      ensures Valid() && Value() == MachineStep(old(Value()), SchedOp(SR.UnblockE(id)))
    {
      hide MachineInv, SR.Inv, SR.Step;
      StepKeeps(Value(), SchedOp(SR.UnblockE(id)));
      woken := sched.UnblockTask(id);
    }

    // A frame for the kernel's own use. None is the kernel stopping.
    method TakeKernelFrame() returns (r: Option<nat>)
      requires Valid()
      modifies this`tables, frames`nextFree, frames.bitmap
      ensures Valid() && (r.Some? <==> old(TaskResources.Possible(Value(), KernelFrameOp)))
      ensures Value() == if r.Some? then MachineStep(old(Value()), KernelFrameOp) else old(Value())
    {
      hide MachineInv, SR.Inv, Candidate;
      ghost var m := Value();
      if TaskResources.Possible(m, KernelFrameOp) { StepKeeps(m, KernelFrameOp); }
      r := frames.AllocateFrame();
      if r.Some? { tables := tables + {r.value}; }
    }
  }

  lemma NewTaskLegal(m: Machine, task: Task)
    requires MachineInv(m) && task.id == NextId(m.ids) < SR.MAX_TASKS && task.state == Ready
    ensures SR.Legal(m.sched, SR.SpawnE(task))
  {
    TaskResources.NextIdUnused(m);
    assert forall x :: Held(m.sched, x) > 0 ==> TaskResources.Alive(m, x);
  }

  // What a dead current task returns are frames of this machine.
  lemma DeadOwnsUsable(m: Machine)
    requires MachineInv(m)
    ensures Dropped(m.sched) ==>
      var stack := m.sched.current.value.frames; forall k :: 0 <= k < |stack| ==> stack[k] in m.usable
  {
    if Dropped(m.sched) {
      AliveAfter(m, SR.RescheduleE, m.(sched := SR.Step(m.sched, SR.RescheduleE)));
      assert OwnsStack(m, Same(m.sched.current.value));
    }
  }
}
