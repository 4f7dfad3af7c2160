// Task ids and stack frames: who owns what, from the creation of a task to its clean-up.
module TaskResources {
  import opened Bytes
  import opened Collections
  import opened SchedulerModel
  import SR = SchedulerRuns
  import opened FrameModel

  const STACK_PAGES: nat := 4

  // Ids from 1 to next - 1 have been used; those in `free` can be used again.
  datatype Ids = Ids(next: nat, free: seq<nat>)

  function NextId(ids: Ids): nat {
    if ids.free != [] then ids.free[|ids.free| - 1] else ids.next
  }

  function TookId(ids: Ids): Ids {
    if ids.free != [] then ids.(free := ids.free[..|ids.free| - 1]) else ids.(next := ids.next + 1)
  }

  function Returned(ids: Ids, id: nat): Ids {
    ids.(free := ids.free + [id])
  }

  // Frames taken one after the other.
  datatype Taken = OutOfMemory | Taken(frames: Frames, stack: seq<nat>, tables: set<nat>)

  ghost function TakeTables(f: Frames, n: nat): Taken
    decreases n
  {
    if n == 0 then Taken(f, [], {})
    else match TakeTables(f, n - 1)
      case OutOfMemory => OutOfMemory
      case Taken(g, _, tables) =>
        if Candidate(g).None? then OutOfMemory
        else Taken(Allocated(g), [], tables + {Candidate(g).value})
  }

  // A stack of |extra| pages. Mapping page i may take extra[i] further frames for page tables.
  ghost function TakeStack(f: Frames, extra: seq<nat>): Taken
    decreases |extra|
  {
    if extra == [] then Taken(f, [], {})
    else match TakeStack(f, extra[..|extra| - 1])
      case OutOfMemory => OutOfMemory
      case Taken(g, stack, tables) =>
        if Candidate(g).None? then OutOfMemory
        else match TakeTables(Allocated(g), extra[|extra| - 1])
          case OutOfMemory => OutOfMemory
          case Taken(k, _, more) => Taken(k, stack + [Candidate(g).value], tables + more)
  }

  function FreeAll(f: Frames, frames: seq<nat>): Frames {
    if frames == [] then f else Freed(FreeAll(f, frames[..|frames| - 1]), frames[|frames| - 1])
  }

  lemma {:induction false} TakeTablesEffect(f: Frames, n: nat)
    ensures var t := TakeTables(f, n); t.Taken? ==> t.tables <= f.free && t.frames.free == f.free - t.tables
    decreases n
  {
    if n > 0 {
      TakeTablesEffect(f, n - 1);
      var t := TakeTables(f, n - 1);
      if t.Taken? { NoneOnlyWhenFull(t.frames); }
    }
  }

  function Total(extra: seq<nat>): nat {
    if extra == [] then 0 else Total(extra[..|extra| - 1]) + extra[|extra| - 1]
  }

  lemma AllocatedCount(f: Frames)
    ensures Candidate(f).Some? <==> |f.free| > 0
    ensures Candidate(f).Some? ==> |Allocated(f).free| == |f.free| - 1
  {
    hide Candidate;
    NoneOnlyWhenFull(f);
  }

  // Frames run out just when fewer are free than are asked for.
  lemma {:induction false} TakeTablesIff(f: Frames, n: nat)
    ensures TakeTables(f, n).Taken? <==> n <= |f.free|
    ensures TakeTables(f, n).Taken? ==> |TakeTables(f, n).frames.free| == |f.free| - n && |TakeTables(f, n).tables| == n
    decreases n
  {
    hide Candidate, Allocated;
    if n > 0 {
      TakeTablesIff(f, n - 1);
      var t := TakeTables(f, n - 1);
      if t.Taken? { AllocatedCount(t.frames); }
    }
    TakeTablesEffect(f, n);
  }

  // A stack is to be had just when there is a frame for each page and for each page table.
  lemma {:induction false} TakeStackIff(f: Frames, extra: seq<nat>)
    ensures TakeStack(f, extra).Taken? <==> |extra| + Total(extra) <= |f.free|
    ensures TakeStack(f, extra).Taken? ==> |TakeStack(f, extra).frames.free| == |f.free| - |extra| - Total(extra)
    decreases |extra|
  {
    hide Candidate, Allocated, TakeTables;
    if extra != [] {
      var rest, last := extra[..|extra| - 1], extra[|extra| - 1];
      TakeStackIff(f, rest);
      var t := TakeStack(f, rest);
      if t.Taken? {
        AllocatedCount(t.frames);
        if Candidate(t.frames).Some? { TakeTablesIff(Allocated(t.frames), last); }
      }
    }
  }

  // What was free is now free, on the stack or in the tables, and in one of these only.
  ghost predicate Splits(f: Frames, t: Taken) {
    && t.Taken? && Distinct(t.stack)
    && (forall i :: i in t.stack ==> i in f.free && i !in t.tables)
    && t.tables <= f.free
    && (forall i :: i in t.frames.free <==> i in f.free && i !in t.tables && i !in t.stack)
  }

  lemma {:induction false} TakeStackEffect(f: Frames, extra: seq<nat>)
    ensures var t := TakeStack(f, extra); t.Taken? ==> Splits(f, t) && |t.stack| == |extra|
    decreases |extra|
  {
    if extra != [] {
      TakeStackEffect(f, extra[..|extra| - 1]);
      var t := TakeStack(f, extra[..|extra| - 1]);
      if t.Taken? && Candidate(t.frames).Some? {
        NoneOnlyWhenFull(t.frames);
        TakeTablesEffect(Allocated(t.frames), extra[|extra| - 1]);
      }
    }
  }

  lemma {:induction false} FreeAllEffect(f: Frames, frames: seq<nat>)
    ensures forall i :: i in FreeAll(f, frames).free <==> i in f.free || i in frames
  {
    if frames != [] {
      FreeAllEffect(f, frames[..|frames| - 1]);
      assert frames == frames[..|frames| - 1] + [frames[|frames| - 1]];
    }
  }

  ////////////// The whole machine //////////////

  // Pages of the region for stacks, counted from its start: each id has a slot of one guard page,
  // which is left unmapped, and the pages of its stack.
  const SLOT_PAGES: nat := STACK_PAGES + 1

  predicate InSlot(p: nat, id: nat) {
    SLOT_PAGES * id < p < SLOT_PAGES * (id + 1)
  }

  // The first n pages of a stack.
  function FirstPages(id: nat, n: nat): set<nat> {
    set p: nat | p <= SLOT_PAGES * id + n && InSlot(p, id)
  }

  function StackPages(id: nat): set<nat> {
    FirstPages(id, STACK_PAGES)
  }

  // `tables` are the frames in page tables, queues and other kernel structures, never returned.
  // `mapped` are the pages for stacks that are mapped; nothing unmaps them. `usable` are the frames
  // there were at boot.
  datatype Machine =
    Machine(sched: Sched, ids: Ids, frames: Frames, tables: set<nat>, mapped: set<nat>, usable: set<nat>)

  ghost predicate Alive(m: Machine, x: Task)
    requires |m.sched.queues| == 3
  {
    Held(m.sched, x) == 1
  }

  // Live ids and free ids partition the ids used so far.
  ghost predicate IdsOk(m: Machine)
    requires |m.sched.queues| == 3
  {
    && m.ids.next >= 1 && Distinct(m.ids.free)
    && (forall i :: i in m.ids.free ==> 1 <= i < m.ids.next)
    && (forall x :: Alive(m, x) ==> 1 <= x.id < m.ids.next && x.id !in m.ids.free)
    && (forall i: nat :: 1 <= i < m.ids.next && i !in m.ids.free ==> exists x :: Alive(m, x) && x.id == i)
  }

  ghost predicate OwnsStack(m: Machine, x: Task) {
    && |x.frames| == STACK_PAGES && Distinct(x.frames)
    && forall i :: i in x.frames ==> i in m.usable && i !in m.frames.free && i !in m.tables
  }

  ghost predicate OnStack(m: Machine, i: nat)
    requires |m.sched.queues| == 3
  {
    exists x :: Alive(m, x) && i in x.frames
  }

  // Each live task owns four frames that are allocated and nobody else's, and no frame is ever lost.
  ghost predicate FramesOk(m: Machine)
    requires |m.sched.queues| == 3
  {
    && m.frames.free !! m.tables && m.frames.free + m.tables <= m.usable
    && (forall i :: i in m.usable ==> i in m.frames.free || i in m.tables || OnStack(m, i))
    && (forall x :: Alive(m, x) ==> OwnsStack(m, x))
    && (forall x, y, i :: Alive(m, x) && Alive(m, y) && i in x.frames && i in y.frames ==> x == y)
  }

  // Mapped are the stacks of all ids used so far, live or not, and no guard page.
  ghost predicate PagesOk(m: Machine) {
    forall p: nat :: p in m.mapped <==> 1 <= p / SLOT_PAGES < m.ids.next && p % SLOT_PAGES != 0
  }

  ghost predicate MachineInv(m: Machine): (b: bool)
    ensures b ==> |m.sched.queues| == 3
  {
    SR.Inv(m.sched) && IdsOk(m) && FramesOk(m) && PagesOk(m)
  }

  datatype MachineOp = NewTaskOp(priority: Priority, extra: seq<nat>) | KernelFrameOp | SchedOp(event: SR.Event)

  // Creating a task stops the kernel when memory runs out, when a page of its stack is mapped already
  // or when all task slots are taken.
  ghost predicate Possible(m: Machine, op: MachineOp) {
    match op
    case NewTaskOp(_, extra) =>
      && |extra| == STACK_PAGES && TakeStack(m.frames, extra).Taken?
      && StackPages(NextId(m.ids)) !! m.mapped && NextId(m.ids) < SR.MAX_TASKS
    case KernelFrameOp => Candidate(m.frames).Some?
    case SchedOp(event) => !event.SpawnE?
  }

  ghost function MachineStep(m: Machine, op: MachineOp): Machine
    requires |m.sched.queues| == 3 && Possible(m, op)
  {
    match op
    case NewTaskOp(priority, extra) =>
      var t := TakeStack(m.frames, extra);
      var task := Task(NextId(m.ids), Ready, priority, t.stack);
      m.(sched := SR.Step(m.sched, SR.SpawnE(task)), ids := TookId(m.ids), frames := t.frames,
         tables := m.tables + t.tables, mapped := m.mapped + StackPages(task.id))
    case KernelFrameOp => m.(frames := Allocated(m.frames), tables := m.tables + {Candidate(m.frames).value})
    case SchedOp(event) =>
      var n := m.(sched := SR.Step(m.sched, event));
      if event.RescheduleE? && Dropped(m.sched) then
        var dead := m.sched.current.value;
        n.(ids := Returned(m.ids, dead.id), frames := FreeAll(m.frames, dead.frames))
      else n
  }

  ////////////// What every step keeps //////////////

  // Who is alive after a step of the scheduler.
  lemma AliveAfter(m: Machine, e: SR.Event, n: Machine)
    requires SR.Inv(m.sched) && SR.Legal(m.sched, e) && n.sched == SR.Step(m.sched, e)
    ensures |n.sched.queues| == 3 && SR.Inv(n.sched)
    ensures forall x :: Alive(n, x) <==>
      (Alive(m, x) && !(e.RescheduleE? && Dropped(m.sched) && x == Same(m.sched.current.value))) ||
      (e.SpawnE? && x == e.task)
    ensures e.RescheduleE? && Dropped(m.sched) ==> Alive(m, Same(m.sched.current.value))
  {
    hide SR.Step, SR.Places;
    SR.StepInv(m.sched, e);
    forall x ensures Held(n.sched, x) + SR.Leaves(m.sched, e, x) == Held(m.sched, x) + SR.Joins(e, x) {
      SR.StepHeld(m.sched, e, x);
    }
    if m.sched.current.Some? { assert Held(m.sched, Same(m.sched.current.value)) >= 1; }
    hide Held;
  }

  lemma NextIdUnused(m: Machine)
    requires |m.sched.queues| == 3 && IdsOk(m)
    ensures NextId(m.ids) >= 1 && forall x :: Alive(m, x) ==> x.id != NextId(m.ids)
  {
    hide Alive;
    assert m.ids.free != [] ==> NextId(m.ids) in m.ids.free;
  }

  lemma TookIdFree(ids: Ids, i: nat)
    requires Distinct(ids.free)
    ensures Distinct(TookId(ids).free) && (i in TookId(ids).free <==> i in ids.free && i != NextId(ids))
  {
    var free := ids.free;
    if free != [] { assert free == free[..|free| - 1] + [NextId(ids)]; }
  }

  // The new task takes an unused id; everything else stays put.
  lemma NewTaskIds(m: Machine, n: Machine, task: Task)
    requires |m.sched.queues| == 3 && |n.sched.queues| == 3 && IdsOk(m)
    requires task.id == NextId(m.ids) && n.ids == TookId(m.ids)
    requires forall x :: Alive(n, x) <==> Alive(m, x) || x == task
    ensures IdsOk(n)
  {
    hide Alive;
    NextIdUnused(m);
    TookIdFree(m.ids, 0);
    forall i: nat ensures i in n.ids.free <==> i in m.ids.free && i != task.id { TookIdFree(m.ids, i); }
    assert m.ids.free != [] ==> task.id in m.ids.free;
    forall i: nat | 1 <= i < n.ids.next && i !in n.ids.free ensures exists x :: Alive(n, x) && x.id == i {
      if i == task.id {
        assert Alive(n, task);
      } else {
        var x :| Alive(m, x) && x.id == i;
        assert Alive(n, x);
      }
    }
  }

  lemma StaysOnStack(m: Machine, n: Machine, i: nat)
    requires |m.sched.queues| == 3 && |n.sched.queues| == 3 && OnStack(m, i)
    requires forall x :: Alive(m, x) && i in x.frames ==> Alive(n, x)
    ensures OnStack(n, i)
  {
    hide Alive;
    var x :| Alive(m, x) && i in x.frames;
    assert Alive(n, x);
  }

  // In every reachable machine, a recycled id is one whose stack is still mapped.
  lemma RecycledIsMapped(m: Machine)
    requires |m.sched.queues| == 3 && IdsOk(m) && PagesOk(m)
    ensures StackPages(NextId(m.ids)) !! m.mapped <==> m.ids.free == []
  {
    hide Alive;
    var id := NextId(m.ids);
    if m.ids.free != [] {
      assert id in m.ids.free;
      var p := SLOT_PAGES * id + 1;
      assert p / SLOT_PAGES == id && p % SLOT_PAGES == 1;
      assert p in StackPages(id) && p in m.mapped;
    } else {
      forall p | p in StackPages(id) ensures p !in m.mapped { SlotOf(p, id); }
    }
  }

  lemma SlotOf(p: nat, id: nat)
    ensures p in StackPages(id) <==> p / SLOT_PAGES == id && p % SLOT_PAGES != 0
  {
  }

  lemma NewTaskPages(m: Machine, n: Machine)
    requires PagesOk(m) && m.ids.next >= 1 && m.ids.free == []
    requires n.ids == TookId(m.ids) && n.mapped == m.mapped + StackPages(m.ids.next)
    ensures PagesOk(n)
  {
    forall p: nat ensures p in n.mapped <==> 1 <= p / SLOT_PAGES < n.ids.next && p % SLOT_PAGES != 0 {
      SlotOf(p, m.ids.next);
    }
  }

  lemma NewTaskFrames(m: Machine, n: Machine, task: Task, t: Taken)
    requires |m.sched.queues| == 3 && |n.sched.queues| == 3 && FramesOk(m)
    requires Splits(m.frames, t) && task.frames == t.stack && |t.stack| == STACK_PAGES
    requires n.frames == t.frames && n.tables == m.tables + t.tables && n.usable == m.usable
    requires forall x :: Alive(n, x) <==> Alive(m, x) || x == task
    ensures FramesOk(n)
  {
    hide Alive;
    assert forall i :: i in task.frames && Alive(n, task) ==> OnStack(n, i);
    forall i | OnStack(m, i) ensures OnStack(n, i) { StaysOnStack(m, n, i); }
    forall x | Alive(n, x) ensures OwnsStack(n, x) {
      if x != task { assert OwnsStack(m, x); }
    }
    forall x, y, i | Alive(n, x) && Alive(n, y) && i in x.frames && i in y.frames ensures x == y {
      if x != task { assert OwnsStack(m, x); }
      if y != task { assert OwnsStack(m, y); }
    }
  }

  lemma NewTaskKeeps(m: Machine, priority: Priority, extra: seq<nat>)
    requires MachineInv(m) && Possible(m, NewTaskOp(priority, extra))
    ensures MachineInv(MachineStep(m, NewTaskOp(priority, extra)))
  {
    var t := TakeStack(m.frames, extra);
    var task := Task(NextId(m.ids), Ready, priority, t.stack);
    var n := MachineStep(m, NewTaskOp(priority, extra));
    TakeStackEffect(m.frames, extra);
    NextIdUnused(m);
    assert SR.Legal(m.sched, SR.SpawnE(task)) by {
      assert forall x :: Held(m.sched, x) > 0 ==> Alive(m, x);
    }
    AliveAfter(m, SR.SpawnE(task), n);
    RecycledIsMapped(m);
    assert m.ids.next >= 1;
    hide Alive, TakeStack, SR.Step, SR.Inv, IdsOk, FramesOk, Splits, PagesOk, StackPages;
    NewTaskIds(m, n, task);
    NewTaskFrames(m, n, task, t);
    NewTaskPages(m, n);
  }

  // The dead task's id and frames are returned, once, and nobody else's.
  lemma CleanupIds(m: Machine, n: Machine, dead: Task)
    requires |m.sched.queues| == 3 && |n.sched.queues| == 3 && IdsOk(m) && SR.Inv(m.sched)
    requires Alive(m, dead) && n.ids == Returned(m.ids, dead.id)
    requires forall x :: Alive(n, x) <==> Alive(m, x) && x != dead
    ensures IdsOk(n)
  {
    assert forall x :: Alive(m, x) && x.id == dead.id ==> x == dead;
    hide Alive, SR.Inv;
    DistinctAppend(m.ids.free, dead.id);
    forall i: nat | 1 <= i < n.ids.next && i !in n.ids.free ensures exists x :: Alive(n, x) && x.id == i {
      var x :| Alive(m, x) && x.id == i;
      assert Alive(n, x);
    }
  }

  lemma CleanupFrames(m: Machine, n: Machine, dead: Task)
    requires |m.sched.queues| == 3 && |n.sched.queues| == 3 && FramesOk(m)
    requires Alive(m, dead) && n.frames == FreeAll(m.frames, dead.frames) && n.tables == m.tables && n.usable == m.usable
    requires forall x :: Alive(n, x) <==> Alive(m, x) && x != dead
    ensures FramesOk(n)
  {
    hide Alive;
    FreeAllEffect(m.frames, dead.frames);
    assert OwnsStack(m, dead);
    forall x | Alive(n, x) ensures OwnsStack(n, x) { assert OwnsStack(m, x); }
    forall i | OnStack(m, i) && i !in dead.frames ensures OnStack(n, i) { StaysOnStack(m, n, i); }
  }

  lemma SchedKeeps(m: Machine, e: SR.Event)
    requires MachineInv(m) && !e.SpawnE?
    ensures MachineInv(MachineStep(m, SchedOp(e)))
  {
    var n := MachineStep(m, SchedOp(e));
    AliveAfter(m, e, n);
    assert PagesOk(n);
    hide Alive, SR.Step, SR.Inv, FreeAll;
    if e.RescheduleE? && Dropped(m.sched) {
      var dead := Same(m.sched.current.value);
      hide IdsOk, FramesOk, PagesOk;
      CleanupIds(m, n, dead);
      CleanupFrames(m, n, dead);
    } else {
      hide IdsOk, FramesOk, PagesOk;
      SameOwners(m, n);
    }
  }

  lemma SameOwners(m: Machine, n: Machine)
    requires |m.sched.queues| == 3 && |n.sched.queues| == 3 && IdsOk(m) && FramesOk(m)
    requires n.ids == m.ids && n.frames == m.frames && n.tables == m.tables && n.usable == m.usable
    requires forall x :: Alive(n, x) <==> Alive(m, x)
    ensures IdsOk(n) && FramesOk(n)
  {
    hide Alive;
    SameIds(m, n);
    forall i | OnStack(m, i) ensures OnStack(n, i) { StaysOnStack(m, n, i); }
    forall x | Alive(n, x) ensures OwnsStack(n, x) { assert OwnsStack(m, x); }
  }

  lemma SameIds(m: Machine, n: Machine)
    requires |m.sched.queues| == 3 && |n.sched.queues| == 3 && IdsOk(m)
    requires n.ids == m.ids && forall x :: Alive(n, x) <==> Alive(m, x)
    ensures IdsOk(n)
  {
    hide Alive;
    forall i: nat | 1 <= i < n.ids.next && i !in n.ids.free ensures exists x :: Alive(n, x) && x.id == i {
      var x :| Alive(m, x) && x.id == i;
      assert Alive(n, x);
    }
  }

  lemma FrameToTables(m: Machine, n: Machine, j: nat)
    requires |m.sched.queues| == 3 && |n.sched.queues| == 3 && FramesOk(m) && j in m.frames.free
    requires n.frames.free == m.frames.free - {j} && n.tables == m.tables + {j} && n.usable == m.usable
    requires forall x :: Alive(n, x) <==> Alive(m, x)
    ensures FramesOk(n)
  {
    hide Alive;
    forall i | OnStack(m, i) ensures OnStack(n, i) { StaysOnStack(m, n, i); }
    forall x | Alive(n, x) ensures OwnsStack(n, x) { assert OwnsStack(m, x); }
  }

  lemma KernelFrameKeeps(m: Machine)
    requires MachineInv(m) && Possible(m, KernelFrameOp)
    ensures MachineInv(MachineStep(m, KernelFrameOp))
  {
    hide SR.Inv, IdsOk, FramesOk;
    var n := MachineStep(m, KernelFrameOp);
    NoneOnlyWhenFull(m.frames);
    hide Candidate;
    SameIds(m, n);
    FrameToTables(m, n, Candidate(m.frames).value);
  }

  lemma StepKeeps(m: Machine, op: MachineOp)
    requires MachineInv(m) && Possible(m, op)
    ensures MachineInv(MachineStep(m, op))
  {
    match op
    case NewTaskOp(priority, extra) => NewTaskKeeps(m, priority, extra);
    case KernelFrameOp => KernelFrameKeeps(m);
    case SchedOp(event) => SchedKeeps(m, event);
  }

  ////////////// Runs //////////////

  ghost function Booted(free: set<nat>): Machine {
    Machine(IDLE, Ids(1, []), Frames(free, 0), {}, {}, free)
  }

  // The machine after these operations from boot, if they are possible in this order.
  ghost function MachineRun(free: set<nat>, ops: seq<MachineOp>): Option<Machine> {
    if ops == [] then Some(Booted(free))
    else match MachineRun(free, ops[..|ops| - 1])
      case None => None
      case Some(m) =>
        if |m.sched.queues| == 3 && Possible(m, ops[|ops| - 1]) then Some(MachineStep(m, ops[|ops| - 1])) else None
  }

  // Ownership on every run from boot: tasks come and go, and still every id used so far is either one
  // live task's or free, every live task has four frames of its own, no frame is lost, and no guard
  // page is ever mapped.
  lemma {:induction false} OwnershipOnEveryRun(free: set<nat>, ops: seq<MachineOp>)
    requires MachineRun(free, ops).Some?
    ensures MachineInv(MachineRun(free, ops).value)
  {
    if ops == [] {
      BootInv(free);
    } else {
      hide MachineInv, MachineStep, Possible, Booted;
      OwnershipOnEveryRun(free, ops[..|ops| - 1]);
      StepKeeps(MachineRun(free, ops[..|ops| - 1]).value, ops[|ops| - 1]);
    }
  }

  // The machine after boot.
  lemma BootInv(free: set<nat>)
    ensures MachineInv(Booted(free))
  {
    assert forall x :: Held(IDLE, x) == 0;
  }

  // Ids are recycled but stacks stay mapped: with an id to recycle, creating a task stops the kernel.
  // It works if and only if there is none, memory suffices and fewer than 256 ids were ever used.
  lemma CreationWorksIff(m: Machine, priority: Priority, extra: seq<nat>)
    requires MachineInv(m)
    ensures Possible(m, NewTaskOp(priority, extra)) <==>
      |extra| == STACK_PAGES && m.ids.free == [] && m.ids.next < 256 && 4 + Total(extra) <= |m.frames.free|
  {
    hide SR.Inv, FramesOk, TakeStack;
    RecycledIsMapped(m);
    TakeStackIff(m.frames, extra);
  }

  lemma RecyclingStops(m: Machine, op: MachineOp)
    requires MachineInv(m) && Possible(m, op) && m.ids.free != []
    ensures !op.NewTaskOp? && MachineStep(m, op).ids.free != []
  {
    hide MachineInv;
    if op.NewTaskOp? { CreationWorksIff(m, op.priority, op.extra); }
    hide SR.Step, FreeAll, Allocated;
  }

  // So after the first clean-up no task is ever created again.
  lemma {:induction false} NoneAfterCleanup(free: set<nat>, ops: seq<MachineOp>, more: seq<MachineOp>)
    requires MachineRun(free, ops).Some? && MachineRun(free, ops).value.ids.free != []
    requires MachineRun(free, ops + more).Some?
    ensures MachineRun(free, ops + more).value.ids.free != []
    ensures forall i :: 0 <= i < |more| ==> !more[i].NewTaskOp?
  {
    hide MachineInv, MachineStep, Possible;
    if more == [] {
      assert ops + more == ops;
    } else {
      var rest, last := more[..|more| - 1], more[|more| - 1];
      assert (ops + more)[..|ops + more| - 1] == ops + rest && (ops + more)[|ops + more| - 1] == last;
      NoneAfterCleanup(free, ops, rest);
      OwnershipOnEveryRun(free, ops + rest);
      RecyclingStops(MachineRun(free, ops + rest).value, last);
    }
  }

  ////////////// A run with a clean-up //////////////

  // Create a task, let it run, kill it, and reschedule.
  function OneLife(): seq<MachineOp> {
    [NewTaskOp(Normal, [0, 0, 0, 0]), SchedOp(SR.RescheduleE), SchedOp(SR.KillE), SchedOp(SR.RescheduleE)]
  }

  lemma MachineRunNext(free: set<nat>, ops: seq<MachineOp>, op: MachineOp, m: Machine)
    requires MachineRun(free, ops) == Some(m) && |m.sched.queues| == 3 && Possible(m, op)
    ensures MachineRun(free, ops + [op]) == Some(MachineStep(m, op))
  {
    hide MachineStep, Possible;
    assert (ops + [op])[..|ops + [op]| - 1] == ops;
  }

  // A task that is alone in the system runs, dies and is dropped.
  lemma AloneRunsAndDies(task: Task)
    requires task.state == Ready && task.priority == Normal && task.id != 0
    ensures var s := Sched([[], [task], []], None, []);
      && SR.Step(s, SR.RescheduleE) == Sched([[], [], []], Some(task.(state := Running)), [])
      && SR.Step(SR.Step(s, SR.RescheduleE), SR.KillE) == Sched([[], [], []], Some(task.(state := Dead)), [])
      && Dropped(SR.Step(SR.Step(s, SR.RescheduleE), SR.KillE))
  {
    var s := Sched([[], [task], []], None, []);
    assert FirstOther([task], 0) == 0;
    assert ChooseOther(s.queues, 0, 1) == At(1, 0);
    assert Choose(s.queues, 0) == At(1, 0);
    assert Without([task], 0) == [];
    assert Dispatch(s, 0) == Sched([[], [], []], Some(task.(state := Running)), []);
  }

  lemma FirstTask(free: set<nat>) returns (task: Task)
    requires |free| >= STACK_PAGES
    ensures task.id == 1 && task.state == Ready && task.priority == Normal
    ensures |Booted(free).sched.queues| == 3
    ensures var op := NewTaskOp(Normal, [0, 0, 0, 0]);
      && Possible(Booted(free), op) && MachineStep(Booted(free), op).ids == Ids(2, [])
      && MachineStep(Booted(free), op).sched == Sched([[], [task], []], None, [])
  {
    hide TakeStack, StackPages;
    assert Total([0]) == 0 && Total([0, 0]) == 0 && Total([0, 0, 0]) == 0 && Total([0, 0, 0, 0]) == 0 by {
      assert [0][..0] == [] && [0, 0][..1] == [0] && [0, 0, 0][..2] == [0, 0] && [0, 0, 0, 0][..3] == [0, 0, 0];
    }
    TakeStackIff(Frames(free, 0), [0, 0, 0, 0]);
    task := Task(1, Ready, Normal, TakeStack(Frames(free, 0), [0, 0, 0, 0]).stack);
    assert [] + [task] == [task];
  }

  lemma LifeAndDeath(m: Machine, task: Task)
    requires m.sched == Sched([[], [task], []], None, []) && m.ids == Ids(2, [])
    requires task.id == 1 && task.state == Ready && task.priority == Normal
    ensures var running := MachineStep(m, SchedOp(SR.RescheduleE));
      var dead := MachineStep(running, SchedOp(SR.KillE));
      MachineStep(dead, SchedOp(SR.RescheduleE)).ids == Ids(2, [1])
  {
    AloneRunsAndDies(task);
    hide SR.Step, FreeAll;
  }

  // With four frames to begin with, that run happens and leaves an id to recycle.
  lemma CleanupHappens(free: set<nat>)
    requires |free| >= STACK_PAGES
    ensures MachineRun(free, OneLife()).Some? && MachineRun(free, OneLife()).value.ids.free == [1]
  {
    hide TakeStack, MachineStep, Booted;
    var a, b, c := NewTaskOp(Normal, [0, 0, 0, 0]), SchedOp(SR.RescheduleE), SchedOp(SR.KillE);
    var task := FirstTask(free);
    hide Possible;
    var created := MachineStep(Booted(free), a);
    assert MachineRun(free, []) == Some(Booted(free));
    hide MachineRun;
    MachineRunNext(free, [], a, Booted(free));
    assert [] + [a] == [a] && [a] + [b] == [a, b] && [a, b] + [c] == [a, b, c] && [a, b, c] + [b] == OneLife();
    LifeAndDeath(created, task);
    SchedRunNext(free, [a], SR.RescheduleE, created);
    var running := MachineStep(created, b);
    SchedRunNext(free, [a, b], SR.KillE, running);
    SchedRunNext(free, [a, b, c], SR.RescheduleE, MachineStep(running, c));
  }

  lemma SchedRunNext(free: set<nat>, ops: seq<MachineOp>, e: SR.Event, m: Machine)
    requires MachineRun(free, ops) == Some(m) && |m.sched.queues| == 3 && !e.SpawnE?
    ensures MachineRun(free, ops + [SchedOp(e)]) == Some(MachineStep(m, SchedOp(e)))
    ensures |MachineStep(m, SchedOp(e)).sched.queues| == 3
  {
    hide MachineRun, SR.Step;
    MachineRunNext(free, ops, SchedOp(e), m);
  }
}
