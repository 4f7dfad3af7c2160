// Whole runs of the scheduler: who sits where, and how long a ready task can wait.
module SchedulerRuns {
  import opened Bytes
  import opened SchedulerModel

  const MAX_TASKS: nat := 256

  ghost predicate QueueOk(q: seq<Task>, level: nat) {
    forall i :: 0 <= i < |q| ==> q[i].state == Ready && Level(q[i].priority) == level
  }

  // Queue p holds ready tasks of priority p, `blocked` holds blocked ones, and the current task is
  // never merely ready.
  ghost predicate Places(s: Sched) {
    && |s.queues| == 3
    && QueueOk(s.queues[0], 0) && QueueOk(s.queues[1], 1) && QueueOk(s.queues[2], 2)
    && (forall i :: 0 <= i < |s.blocked| ==> s.blocked[i].state == Blocked)
    && (s.current.Some? ==> s.current.value.state != Ready)
  }

  // Every task is in exactly one place and ids tell tasks apart; id 0 means nobody.
  ghost predicate Unique(s: Sched)
    requires |s.queues| == 3
  {
    && (forall x :: Held(s, x) <= 1)
    && (forall x :: Held(s, x) == 1 ==> x.id >= 1)
    && (forall x, y :: Held(s, x) == 1 && Held(s, y) == 1 && x.id == y.id ==> x == y)
  }

  ghost predicate Inv(s: Sched): (b: bool)
    ensures b ==> |s.queues| == 3
  {
    Places(s) && Unique(s)
  }

  datatype Event = SpawnE(task: Task) | BlockE | UnblockE(id: nat) | KillE | RescheduleE

  function Step(s: Sched, e: Event): (u: Sched)
    requires |s.queues| == 3
    ensures |u.queues| == 3
  {
    match e
    case SpawnE(t) => s.(queues := PushBack(s.queues, t))
    case BlockE => SetCurrent(s, Blocked)
    case UnblockE(id) => Unblock(s, id)
    case KillE => SetCurrent(s, Dead)
    case RescheduleE => Reschedule(s)
  }

  // A spawned task is ready and has an id nobody else has; larger ids stop the kernel.
  ghost predicate Legal(s: Sched, e: Event)
    requires |s.queues| == 3
  {
    e.SpawnE? ==> e.task.state == Ready && 1 <= e.task.id < MAX_TASKS && forall x :: Held(s, x) > 0 ==> x.id != e.task.id
  }

  lemma CountMember(q: seq<Task>, i: nat)
    requires i < |q|
    ensures Count(q, Same(q[i])) >= 1
  {
    CountTake(q, i, Same(q[i]));
  }

  lemma CurrentNotQueued(s: Sched, l: nat, i: nat)
    requires Inv(s) && s.current.Some? && l < 3 && i < |s.queues[l]|
    ensures s.queues[l][i].id != s.current.value.id
  {
    CountMember(s.queues[l], i);
    var x, y := Same(s.queues[l][i]), Same(s.current.value);
    assert Held(s, x) >= 1 && Held(s, y) >= 1;
    assert Held(s, x) == 1 && Held(s, y) == 1;
  }

  lemma PushPlaces(s: Sched, t: Task)
    requires Places(s) && t.state == Ready
    ensures Places(s.(queues := PushBack(s.queues, t)))
  {
  }

  lemma PutBackPlaces(s: Sched)
    requires Places(s)
    ensures Places(PutBack(s)) && PutBack(s).current.None?
  {
    if s.current.Some? && s.current.value.state.Running? {
      PushPlaces(s.(current := None), s.current.value.(state := Ready));
    }
  }

  lemma QueueWithout(q: seq<Task>, level: nat, i: nat)
    requires QueueOk(q, level) && i < |q|
    ensures QueueOk(Without(q, i), level)
  {
  }

  lemma DispatchPlaces(s: Sched, last: nat)
    requires Places(s) && s.current.None?
    ensures Places(Dispatch(s, last))
  {
    var c := Choose(s.queues, last);
    hide QueueOk, Choose, Without;
    if c.At? { QueueWithout(s.queues[c.level], c.level, c.pos); }
  }

  lemma UnblockPlaces(s: Sched, id: nat)
    requires Places(s)
    ensures Places(Unblock(s, id))
  {
    var i := FindBlocked(s.blocked, id);
    if i < |s.blocked| { PushPlaces(s.(blocked := Without(s.blocked, i)), s.blocked[i].(state := Ready)); }
  }

  lemma StepPlaces(s: Sched, e: Event)
    requires Places(s) && (e.SpawnE? ==> e.task.state == Ready)
    ensures Places(Step(s, e))
  {
    match e
    case SpawnE(t) => PushPlaces(s, t);
    case UnblockE(id) => UnblockPlaces(s, id);
    case RescheduleE =>
      PutBackPlaces(s);
      DispatchPlaces(PutBack(s), CurrentId(s));
    case BlockE =>
    case KillE =>
  }

  function Joins(e: Event, x: Task): nat {
    if e.SpawnE? then One(e.task, x) else 0
  }

  function Leaves(s: Sched, e: Event, x: Task): nat {
    if e.RescheduleE? && Dropped(s) then One(s.current.value, x) else 0
  }

  // No event loses or duplicates a task: a spawned one joins, a dead one leaves at a reschedule.
  lemma StepHeld(s: Sched, e: Event, x: Task)
    requires |s.queues| == 3
    ensures Held(Step(s, e), x) + Leaves(s, e, x) == Held(s, x) + Joins(e, x)
  {
    hide PutBack, Dispatch;
    match e
    case SpawnE(t) => PushHeld(s, t, x);
    case UnblockE(id) => UnblockConserves(s, id, x);
    case RescheduleE => RescheduleConserves(s, x);
    case BlockE =>
    case KillE =>
  }

  lemma StepInv(s: Sched, e: Event)
    requires Inv(s) && Legal(s, e)
    ensures Inv(Step(s, e))
  {
    StepPlaces(s, e);
    hide Step, Places, Held;
    forall x ensures Held(Step(s, e), x) <= 1
             ensures Held(Step(s, e), x) == 1 ==> x.id >= 1
    {
      StepHeld(s, e, x);
    }
    forall x, y | Held(Step(s, e), x) == 1 && Held(Step(s, e), y) == 1 && x.id == y.id ensures x == y {
      StepHeld(s, e, x);
      StepHeld(s, e, y);
    }
  }

  ////////////// Waiting //////////////

  // All the events can happen in this order.
  ghost predicate Possible(s: Sched, es: seq<Event>)
    requires |s.queues| == 3
    decreases |es|
  {
    es == [] || (Legal(s, es[0]) && Possible(Step(s, es[0]), es[1..]))
  }

  function Reschedules(es: seq<Event>): nat {
    if es == [] then 0 else (if es[0].RescheduleE? then 1 else 0) + Reschedules(es[1..])
  }

  // Task t is given the processor by one of these events.
  ghost predicate Dispatched(s: Sched, es: seq<Event>, t: nat)
    requires |s.queues| == 3
    decreases |es|
  {
    es != [] &&
    ((es[0].RescheduleE? && CurrentId(Step(s, es[0])) == t) || Dispatched(Step(s, es[0]), es[1..], t))
  }

  // Nobody waits above queue l.
  predicate NoneAbove(s: Sched, l: nat)
    requires |s.queues| == 3 && l <= 3
  {
    forall m :: 0 <= m < l ==> s.queues[m] == []
  }

  // The reschedules that find nobody waiting above queue l.
  ghost function Openings(s: Sched, es: seq<Event>, l: nat): nat
    requires |s.queues| == 3 && l < 3
    decreases |es|
  {
    if es == [] then 0
    else (if es[0].RescheduleE? && NoneAbove(s, l) then 1 else 0) + Openings(Step(s, es[0]), es[1..], l)
  }

  // With somebody in the queue, its first task is not the one that ran last.
  lemma HeadIsOther(s: Sched, l: nat)
    requires Inv(s) && l < 3 && s.queues[l] != []
    ensures FirstOther(PutBack(s).queues[l], CurrentId(s)) == 0
    ensures PutBack(s).queues[l] != [] && PutBack(s).queues[l][0] == s.queues[l][0]
    ensures s.queues[l] <= PutBack(s).queues[l]
  {
    if s.current.Some? { CurrentNotQueued(s, l, 0); } else {
      CountMember(s.queues[l], 0);
      assert Held(s, Same(s.queues[l][0])) == 1;
    }
  }

  // When the queues above l have nobody but the last task, the first in queue l runs next.
  lemma HeadRunsNext(s: Sched, l: nat)
    requires Inv(s) && l < 3 && s.queues[l] != []
    requires forall m :: 0 <= m < l ==> FirstOther(PutBack(s).queues[m], CurrentId(s)) == |PutBack(s).queues[m]|
    ensures Reschedule(s).current == Some(s.queues[l][0].(state := Running))
    ensures Reschedule(s).queues[l] == PutBack(s).queues[l][1..]
    ensures s.queues[l][1..] <= Reschedule(s).queues[l]
    ensures forall m :: 0 <= m < 3 && m != l ==> Reschedule(s).queues[m] == PutBack(s).queues[m]
  {
    HeadIsOther(s, l);
    PutBackPlaces(s);
    hide Inv, PutBack, FirstOther, Places;
    var u := PutBack(s);
    ChosenLevel(u.queues, CurrentId(s), 0, l);
    hide ChooseOther;
    assert Without(u.queues[l], 0) == u.queues[l][1..];
  }

  lemma {:induction false} ChosenLevel(queues: seq<seq<Task>>, last: nat, m: nat, l: nat)
    requires |queues| == 3 && m <= l < 3 && FirstOther(queues[l], last) < |queues[l]|
    requires forall i :: m <= i < l ==> FirstOther(queues[i], last) == |queues[i]|
    ensures ChooseOther(queues, last, m) == At(l, FirstOther(queues[l], last))
    decreases l - m
  {
    if m < l { ChosenLevel(queues, last, m + 1, l); }
  }

  lemma QueuesOnlyGrow(s: Sched, e: Event, l: nat)
    requires |s.queues| == 3 && l < 3 && !e.RescheduleE?
    ensures s.queues[l] <= Step(s, e).queues[l]
  {
  }

  // An empty queue has nobody but the last task after that is put back.
  lemma EmptyQueueShort(s: Sched, m: nat)
    requires Inv(s) && m < 3 && s.queues[m] == []
    ensures FirstOther(PutBack(s).queues[m], CurrentId(s)) == |PutBack(s).queues[m]|
  {
    var q := PutBack(s).queues[m];
    if q != [] { assert q[1..] == []; }
  }

  // With nobody above, the head of queue l runs and everybody behind it moves up one place.
  lemma QueueAdvances(s: Sched, l: nat, k: nat)
    requires Inv(s) && l < 3 && NoneAbove(s, l) && k < |s.queues[l]|
    ensures var u := Reschedule(s);
      && u.current == Some(s.queues[l][0].(state := Running))
      && (k > 0 ==> k - 1 < |u.queues[l]| && u.queues[l][k - 1] == s.queues[l][k])
      && (forall m :: 0 <= m < 3 && m != l ==> u.queues[m] == PutBack(s).queues[m])
  {
    StepPlaces(s, RescheduleE);
    forall m | 0 <= m < l ensures FirstOther(PutBack(s).queues[m], CurrentId(s)) == |PutBack(s).queues[m]| {
      EmptyQueueShort(s, m);
    }
    HeadRunsNext(s, l);
    hide Reschedule, PutBack, Unique, FirstOther;
    if k > 0 { assert s.queues[l][1..][k - 1] == s.queues[l][k]; }
  }

  // What the current task adds to queue m when it is put back.
  function Back(s: Sched, m: nat): seq<Task> {
    if s.current.Some? && s.current.value.state.Running? && Level(s.current.value.priority) == m
    then [s.current.value.(state := Ready)] else []
  }

  lemma PutBackQueues(s: Sched)
    requires Inv(s)
    ensures forall m :: 0 <= m < 3 ==> PutBack(s).queues[m] == s.queues[m] + Back(s, m)
    ensures PutBack(s).blocked == s.blocked + if s.current.Some? && s.current.value.state.Blocked? then [s.current.value] else []
  {
    hide Unique;
  }

  // With nobody waiting, a running task goes on.
  lemma LoneTaskGoesOn(s: Sched)
    requires Inv(s) && NoneAbove(s, 3)
    ensures var u := Reschedule(s);
      && u.current == (if s.current.Some? && s.current.value.state.Running? then s.current else None)
      && NoneAbove(u, 3)
  {
    PutBackQueues(s);
    ChooseOutcome(PutBack(s).queues, CurrentId(s));
    hide Choose, Inv;
    if s.current.Some? && s.current.value.state.Running? {
      var l := Level(s.current.value.priority);
      assert PutBack(s).queues[l] == [s.current.value.(state := Ready)];
      assert Without(PutBack(s).queues[l], 0) == [];
    }
  }

  // A reschedule, in plain terms. With somebody waiting, the first of the highest such queue runs; the
  // task that ran goes to the back of its own queue if it can go on, and to the blocked ones if it is
  // blocked. With nobody waiting it goes on if it can, and otherwise nobody runs.
  lemma RescheduleLaw(s: Sched)
    requires Inv(s)
    ensures var u := Reschedule(s);
      && (forall l :: 0 <= l < 3 && NoneAbove(s, l) && s.queues[l] != [] ==>
            && u.current == Some(s.queues[l][0].(state := Running))
            && forall m :: 0 <= m < 3 ==> u.queues[m] == (if m == l then s.queues[m][1..] else s.queues[m]) + Back(s, m))
      && (NoneAbove(s, 3) ==>
            u.current == (if s.current.Some? && s.current.value.state.Running? then s.current else None) && NoneAbove(u, 3))
      && u.blocked == s.blocked + if s.current.Some? && s.current.value.state.Blocked? then [s.current.value] else []
  {
    hide Inv, PutBack, Dispatch, FirstOther, NoneAbove;
    PutBackQueues(s);
    if NoneAbove(s, 3) { LoneTaskGoesOn(s); }
    forall l | 0 <= l < 3 && NoneAbove(s, l) && s.queues[l] != []
      ensures Reschedule(s).current == Some(s.queues[l][0].(state := Running))
      ensures forall m :: 0 <= m < 3 ==>
        Reschedule(s).queues[m] == (if m == l then s.queues[m][1..] else s.queues[m]) + Back(s, m)
    {
      FirstWaitingRuns(s, l);
    }
    DispatchBlocked(PutBack(s), CurrentId(s));
  }

  lemma DispatchBlocked(s: Sched, last: nat)
    requires |s.queues| == 3
    ensures Dispatch(s, last).blocked == s.blocked
  {
    hide Choose;
  }

  lemma FirstWaitingRuns(s: Sched, l: nat)
    requires Inv(s) && l < 3 && NoneAbove(s, l) && s.queues[l] != []
    ensures Reschedule(s).current == Some(s.queues[l][0].(state := Running))
    ensures forall m :: 0 <= m < 3 ==>
      Reschedule(s).queues[m] == (if m == l then s.queues[m][1..] else s.queues[m]) + Back(s, m)
  {
    hide Inv, PutBack, Reschedule, FirstOther;
    PutBackQueues(s);
    forall m | 0 <= m < l ensures FirstOther(PutBack(s).queues[m], CurrentId(s)) == |PutBack(s).queues[m]| {
      EmptyQueueShort(s, m);
    }
    HeadRunsNext(s, l);
    assert (s.queues[l] + Back(s, l))[1..] == s.queues[l][1..] + Back(s, l);
  }

  // The highest queue with somebody in it.
  lemma {:induction false} Highest(s: Sched, l: nat) returns (m: nat)
    requires |s.queues| == 3 && l <= 3 && !NoneAbove(s, l)
    ensures m < l && s.queues[m] != [] && NoneAbove(s, m)
  {
    m := l - 1;
    if !NoneAbove(s, m) { m := Highest(s, m); }
  }

  // With somebody above, one of those runs and queue l stays.
  lemma QueueStays(s: Sched, l: nat, k: nat)
    requires Inv(s) && l < 3 && !NoneAbove(s, l) && k < |s.queues[l]|
    ensures var u := Reschedule(s);
      k < |u.queues[l]| && u.queues[l][k] == s.queues[l][k]
  {
    var m := Highest(s, l);
    QueueAdvances(s, m, 0);
    HeadIsOther(s, l);
    hide Reschedule, PutBack, Inv, FirstOther;
  }

  // Task t is ready in queue l with k tasks ahead of it.
  ghost predicate WaitsAt(s: Sched, l: nat, k: nat, t: nat) {
    Inv(s) && l < 3 && k < |s.queues[l]| && s.queues[l][k].id == t
  }

  // Who waits does not run.
  lemma WaiterNotCurrent(s: Sched, l: nat, k: nat, t: nat)
    requires WaitsAt(s, l, k, t)
    ensures CurrentId(s) != t
  {
    CountMember(s.queues[l], k);
    assert Held(s, Same(s.queues[l][k])) >= 1;
    if s.current.Some? { CurrentNotQueued(s, l, k); }
  }

  // One event moves a waiting task forward by exactly one place, if it is a reschedule with nobody
  // waiting above, and leaves it where it is otherwise.
  lemma WaitNext(s: Sched, e: Event, l: nat, k: nat, t: nat)
    requires WaitsAt(s, l, k, t) && Legal(s, e)
    ensures !(e.RescheduleE? && NoneAbove(s, l)) ==> WaitsAt(Step(s, e), l, k, t) && CurrentId(Step(s, e)) != t
    ensures e.RescheduleE? && NoneAbove(s, l) && k == 0 ==> CurrentId(Step(s, e)) == t
    ensures e.RescheduleE? && NoneAbove(s, l) && k > 0 ==>
      WaitsAt(Step(s, e), l, k - 1, t) && CurrentId(Step(s, e)) != t
  {
    hide Inv, NoneAbove, Reschedule, Unblock, PushBack, SetCurrent, Legal;
    StepInv(s, e);
    if !e.RescheduleE? {
      QueuesOnlyGrow(s, e, l);
    } else if NoneAbove(s, l) {
      QueueAdvances(s, l, k);
    } else {
      QueueStays(s, l, k);
    }
    hide Step;
    if WaitsAt(Step(s, e), l, k, t) { WaiterNotCurrent(Step(s, e), l, k, t); }
    if k > 0 && WaitsAt(Step(s, e), l, k - 1, t) { WaiterNotCurrent(Step(s, e), l, k - 1, t); }
  }

  // How long a task of any priority waits, exactly and on every run: a task with k others ahead of
  // it in its queue runs by the (k+1)-th reschedule that finds nobody waiting above, and not before.
  lemma {:induction false} ExactWait(s: Sched, es: seq<Event>, l: nat, k: nat, t: nat)
    requires |s.queues| == 3 && WaitsAt(s, l, k, t) && Possible(s, es)
    ensures l < 3 && (Dispatched(s, es, t) <==> Openings(s, es, l) > k)
    decreases |es|
  {
    assert l < 3;
    hide WaitsAt, Step, Legal, CurrentId, NoneAbove;
    if es != [] {
      WaitNext(s, es[0], l, k, t);
      if !(es[0].RescheduleE? && NoneAbove(s, l)) {
        ExactWait(Step(s, es[0]), es[1..], l, k, t);
      } else if k > 0 {
        ExactWait(Step(s, es[0]), es[1..], l, k - 1, t);
      }
    }
  }

  lemma {:induction false} TopAlwaysOpen(s: Sched, es: seq<Event>)
    requires |s.queues| == 3
    ensures Openings(s, es, 0) == Reschedules(es)
    decreases |es|
  {
    hide Step;
    if es != [] { TopAlwaysOpen(Step(s, es[0]), es[1..]); }
  }

  // Bounded waiting, real-time: whatever else happens, a real-time task with k tasks ahead of it is
  // dispatched by the (k+1)-th reschedule and by no earlier one.
  lemma RealtimeWait(s: Sched, es: seq<Event>, k: nat, t: nat)
    requires |s.queues| == 3 && WaitsAt(s, 0, k, t) && Possible(s, es)
    ensures Dispatched(s, es, t) <==> Reschedules(es) > k
  {
    hide WaitsAt, Possible, Dispatched;
    ExactWait(s, es, 0, k, t);
    TopAlwaysOpen(s, es);
  }

  ////////////// Normal tasks //////////////

  predicate RunsRealtime(s: Sched) {
    s.current.Some? && s.current.value.priority.Realtime?
  }

  // No real-time task waits while another has the processor.
  predicate Relaxed(s: Sched)
    requires |s.queues| == 3
  {
    s.queues[0] != [] ==> !RunsRealtime(s)
  }

  ghost predicate RelaxedThroughout(s: Sched, es: seq<Event>)
    requires |s.queues| == 3
    decreases |es|
  {
    Relaxed(s) && (es == [] || RelaxedThroughout(Step(s, es[0]), es[1..]))
  }

  // At most this many reschedules until the normal task with k ahead of it runs.
  function Patience(s: Sched, k: nat): (n: nat)
    ensures 1 <= n <= 2 * (k + 1)
  {
    2 * k + if RunsRealtime(s) then 1 else 2
  }

  lemma SamePriority(s: Sched, e: Event)
    requires |s.queues| == 3 && !e.RescheduleE?
    ensures RunsRealtime(Step(s, e)) == RunsRealtime(s)
  {
  }

  // Who runs after a reschedule that finds somebody ready.
  lemma RunsNext(s: Sched)
    requires Inv(s) && s.queues[1] != []
    ensures RunsRealtime(Reschedule(s)) == (s.queues[0] != [])
  {
    if s.queues[0] != [] { QueueAdvances(s, 0, 0); } else { QueueAdvances(s, 1, 0); }
    hide Reschedule, PutBack, Unique;
  }

  lemma NormalNext(s: Sched, e: Event, k: nat, t: nat) returns (done: bool, j: nat)
    requires |s.queues| == 3 && WaitsAt(s, 1, k, t) && Legal(s, e) && Relaxed(s)
    ensures done ==> e.RescheduleE? && CurrentId(Step(s, e)) == t
    ensures !done ==> WaitsAt(Step(s, e), 1, j, t)
    ensures !done ==> Patience(Step(s, e), j) + (if e.RescheduleE? then 1 else 0) <= Patience(s, k)
  {
    hide Inv, Reschedule, RunsRealtime, Legal, CurrentId;
    assert Inv(s) && s.queues[1] != [];
    WaitNext(s, e, 1, k, t);
    if e.RescheduleE? { RunsNext(s); } else { SamePriority(s, e); }
    assert NoneAbove(s, 1) <==> s.queues[0] == [];
    hide Step, WaitsAt, NoneAbove;
    done := e.RescheduleE? && s.queues[0] == [] && k == 0;
    j := if !done && e.RescheduleE? && s.queues[0] == [] then k - 1 else k;
  }

  // Bounded waiting, normal: as long as no real-time task waits while another has the processor, a
  // normal task with k tasks ahead of it is dispatched within 2(k+1) reschedules.
  lemma {:induction false} NormalWait(s: Sched, es: seq<Event>, k: nat, t: nat)
    requires |s.queues| == 3 && WaitsAt(s, 1, k, t) && Possible(s, es) && RelaxedThroughout(s, es)
    requires Reschedules(es) >= Patience(s, k)
    ensures Dispatched(s, es, t)
    decreases |es|
  {
    hide WaitsAt, Step, Legal, CurrentId, Patience, Relaxed;
    var done, j := NormalNext(s, es[0], k, t);
    if !done { NormalWait(Step(s, es[0]), es[1..], j, t); }
  }

  // At most one real-time task in the whole system.
  ghost predicate OneRealtime(s: Sched)
    requires |s.queues| == 3
  {
    forall x, y :: Held(s, x) > 0 && Held(s, y) > 0 && x.priority.Realtime? && y.priority.Realtime? ==> x == y
  }

  ghost predicate OneRealtimeThroughout(s: Sched, es: seq<Event>)
    requires |s.queues| == 3
    decreases |es|
  {
    OneRealtime(s) && (es == [] || OneRealtimeThroughout(Step(s, es[0]), es[1..]))
  }

  // One real-time task running and another waiting are two.
  lemma WaiterIsSecond(s: Sched)
    requires Inv(s) && !Relaxed(s)
    ensures !OneRealtime(s)
  {
    CountMember(s.queues[0], 0);
    CurrentNotQueued(s, 0, 0);
    var x, y := Same(s.queues[0][0]), Same(s.current.value);
    assert Held(s, x) > 0 && Held(s, y) > 0;
    assert x.id != y.id;
  }

  // In particular with at most one real-time task in the system.
  lemma {:induction false} OneRealtimeRelaxes(s: Sched, es: seq<Event>)
    requires |s.queues| == 3 && Inv(s) && Possible(s, es) && OneRealtimeThroughout(s, es)
    ensures RelaxedThroughout(s, es)
    decreases |es|
  {
    if !Relaxed(s) { WaiterIsSecond(s); }
    hide Step, Inv, Legal, Relaxed, OneRealtime;
    if es != [] {
      StepInv(s, es[0]);
      OneRealtimeRelaxes(Step(s, es[0]), es[1..]);
    }
  }

  ////////////// Starvation //////////////

  // Two real-time tasks want the processor.
  ghost predicate TwoRealtime(s: Sched) {
    |s.queues| == 3 &&
    (|s.queues[0]| >= 2 || (s.queues[0] != [] && RunsRealtime(s) && s.current.value.state.Running?))
  }

  // n reschedules and nothing else.
  function Ticks(n: nat): seq<Event> {
    if n == 0 then [] else [RescheduleE] + Ticks(n - 1)
  }

  lemma TickOnce(s: Sched, n: nat, t: nat)
    requires |s.queues| == 3 && n > 0
    ensures Dispatched(s, Ticks(n), t) <==>
      CurrentId(Reschedule(s)) == t || Dispatched(Reschedule(s), Ticks(n - 1), t)
  {
    hide Reschedule, CurrentId;
    assert Ticks(n)[1..] == Ticks(n - 1);
  }

  lemma StarvingStep(s: Sched, k: nat, t: nat)
    requires |s.queues| == 3 && WaitsAt(s, 1, k, t) && TwoRealtime(s)
    ensures TwoRealtime(Reschedule(s))
    ensures WaitsAt(Reschedule(s), 1, k, t) && CurrentId(Reschedule(s)) != t
  {
    hide Reschedule, PutBack, Inv, FirstOther, CurrentId;
    assert !NoneAbove(s, 1) by { assert s.queues[0] != []; }
    WaitNext(s, RescheduleE, 1, k, t);
    HeadRunsNext(s, 0);
    StillTwo(s);
  }

  // The one that ran goes to the back of the queue.
  lemma StillTwo(s: Sched)
    requires Inv(s) && TwoRealtime(s)
    ensures |PutBack(s).queues[0]| >= 2 && s.queues[0] != [] && s.queues[0][0].priority.Realtime?
  {
  }

  // Two real-time tasks that keep running shut a normal task out, however often the scheduler is
  // called.
  lemma {:induction false} NormalStarves(s: Sched, n: nat, k: nat, t: nat)
    requires |s.queues| == 3 && WaitsAt(s, 1, k, t) && TwoRealtime(s)
    ensures !Dispatched(s, Ticks(n), t)
    decreases n
  {
    hide WaitsAt, Reschedule, CurrentId, TwoRealtime;
    if n > 0 {
      StarvingStep(s, k, t);
      TickOnce(s, n, t);
      NormalStarves(Reschedule(s), n - 1, k, t);
    }
  }

  // With fewer than two, the reschedules the normal task with k ahead of it has to wait for.
  function Turns(s: Sched, k: nat): (n: nat)
    requires |s.queues| == 3
    ensures 1 <= n <= 2 * (k + 1)
  {
    2 * k + if s.queues[0] == [] then 1 else 2
  }

  lemma NotTwoStep(s: Sched, k: nat, t: nat) returns (done: bool, j: nat)
    requires |s.queues| == 3 && WaitsAt(s, 1, k, t) && !TwoRealtime(s)
    ensures done ==> CurrentId(Reschedule(s)) == t
    ensures !done ==> WaitsAt(Reschedule(s), 1, j, t) && !TwoRealtime(Reschedule(s))
    ensures !done ==> Turns(Reschedule(s), j) < Turns(s, k)
  {
    hide Reschedule, Inv, CurrentId, RunsRealtime;
    assert Inv(s) && s.queues[1] != [];
    WaitNext(s, RescheduleE, 1, k, t);
    RunsNext(s);
    LessThanTwo(s);
    assert NoneAbove(s, 1) <==> s.queues[0] == [];
    hide WaitsAt, NoneAbove;
    done := s.queues[0] == [] && k == 0;
    j := if !done && s.queues[0] == [] then k - 1 else k;
  }

  lemma LessThanTwo(s: Sched)
    requires Inv(s) && s.queues[1] != [] && !TwoRealtime(s)
    ensures |Reschedule(s).queues[0]| <= 1
    ensures s.queues[0] != [] ==> Reschedule(s).queues[0] == []
  {
    if s.queues[0] != [] {
      HeadRunsNext(s, 0);
    } else {
      QueueAdvances(s, 1, 0);
    }
    assert |PutBack(s).queues[0]| <= 1;
    hide Reschedule, Inv, FirstOther;
  }

  lemma {:induction false} NormalRuns(s: Sched, n: nat, k: nat, t: nat)
    requires |s.queues| == 3 && WaitsAt(s, 1, k, t) && !TwoRealtime(s) && n >= Turns(s, k)
    ensures Dispatched(s, Ticks(n), t)
    decreases n
  {
    hide WaitsAt, Reschedule, CurrentId, TwoRealtime, Turns, Dispatched;
    var done, j := NotTwoStep(s, k, t);
    TickOnce(s, n, t);
    if !done { NormalRuns(Reschedule(s), n - 1, j, t); }
  }

  // So when the scheduler is called often enough and nothing else happens, a normal task runs if and
  // only if at most one real-time task wants the processor.
  lemma NormalRunsIff(s: Sched, n: nat, k: nat, t: nat)
    requires |s.queues| == 3 && WaitsAt(s, 1, k, t) && n >= 2 * (k + 1)
    ensures Dispatched(s, Ticks(n), t) <==> !TwoRealtime(s)
  {
    if TwoRealtime(s) { NormalStarves(s, n, k, t); } else { NormalRuns(s, n, k, t); }
  }
}
