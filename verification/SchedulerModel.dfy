// The three-queue scheduler as a value.
module SchedulerModel {
  import opened Bytes

  datatype TaskState = Ready | Running | Blocked | Dead

  datatype Priority = Realtime | Normal | Background

  datatype Task = Task(id: nat, state: TaskState, priority: Priority, frames: seq<nat>)

  datatype Sched = Sched(queues: seq<seq<Task>>, current: Option<Task>, blocked: seq<Task>)

  const IDLE: Sched := Sched([[], [], []], None, [])

  function Level(p: Priority): (i: nat)
    ensures i < 3 && (i == 0 <==> p.Realtime?) && (i == 1 <==> p.Normal?) && (i == 2 <==> p.Background?)
  {
    match p case Realtime => 0 case Normal => 1 case Background => 2
  }

  function PushBack(queues: seq<seq<Task>>, t: Task): (q: seq<seq<Task>>)
    requires |queues| == 3
    ensures |q| == 3
  {
    queues[Level(t.priority) := queues[Level(t.priority)] + [t]]
  }

  // Where the first task other than `last` is; the length of the queue if there is none.
  function FirstOther(q: seq<Task>, last: nat): (i: nat)
    ensures i <= |q|
  {
    if q == [] || q[0].id != last then 0 else 1 + FirstOther(q[1..], last)
  }

  function Without(q: seq<Task>, i: nat): seq<Task>
    requires i < |q|
  {
    q[..i] + q[i + 1..]
  }

  datatype Choice = Nobody | At(level: nat, pos: nat)

  // The first queue from `level` on with a task other than `last`.
  function ChooseOther(queues: seq<seq<Task>>, last: nat, level: nat): (c: Choice)
    requires |queues| == 3 && level <= 3
    ensures c.At? ==> level <= c.level < 3 && c.pos < |queues[c.level]| && c.pos == FirstOther(queues[c.level], last)
    decreases 3 - level
  {
    if level == 3 then Nobody
    else if FirstOther(queues[level], last) < |queues[level]| then At(level, FirstOther(queues[level], last))
    else ChooseOther(queues, last, level + 1)
  }

  function ChooseAny(queues: seq<seq<Task>>, level: nat): (c: Choice)
    requires |queues| == 3 && level <= 3
    ensures c.At? ==> level <= c.level < 3 && c.pos < |queues[c.level]| && c.pos == 0
    decreases 3 - level
  {
    if level == 3 then Nobody
    else if queues[level] != [] then At(level, 0)
    else ChooseAny(queues, level + 1)
  }

  // Somebody other than `last` if possible.
  function Choose(queues: seq<seq<Task>>, last: nat): (c: Choice)
    requires |queues| == 3
    ensures c.At? ==> c.level < 3 && c.pos < |queues[c.level]|
  {
    var c := ChooseOther(queues, last, 0);
    if c.At? then c else ChooseAny(queues, 0)
  }

  // Who is picked: the first task other than `last`, looking through the queues from the highest on;
  // if there is none, the first of the highest queue with anybody.
  ghost predicate Picked(queues: seq<seq<Task>>, last: nat, l: nat, i: nat)
    requires |queues| == 3
  {
    && l < 3 && i < |queues[l]|
    && ((&& queues[l][i].id != last
         && (forall j :: 0 <= j < i ==> queues[l][j].id == last)
         && forall m, j :: 0 <= m < l && 0 <= j < |queues[m]| ==> queues[m][j].id == last) ||
        (&& i == 0 && (forall m :: 0 <= m < l ==> queues[m] == [])
         && forall m, j :: 0 <= m < 3 && 0 <= j < |queues[m]| ==> queues[m][j].id == last))
  }

  lemma {:induction false} FirstOtherOutcome(q: seq<Task>, last: nat)
    ensures var i := FirstOther(q, last);
      (i < |q| ==> q[i].id != last) && forall j :: 0 <= j < i ==> q[j].id == last
  {
    if q != [] && q[0].id == last {
      FirstOtherOutcome(q[1..], last);
      forall j | 0 <= j < FirstOther(q, last) ensures q[j].id == last { if j > 0 { assert q[j] == q[1..][j - 1]; } }
    }
  }

  lemma {:induction false} ChooseOtherOutcome(queues: seq<seq<Task>>, last: nat, level: nat)
    requires |queues| == 3 && level <= 3
    ensures var c := ChooseOther(queues, last, level);
      if c.At? then
        && queues[c.level][c.pos].id != last && (forall j :: 0 <= j < c.pos ==> queues[c.level][j].id == last)
        && forall m, j :: level <= m < c.level && 0 <= j < |queues[m]| ==> queues[m][j].id == last
      else forall m, j :: level <= m < 3 && 0 <= j < |queues[m]| ==> queues[m][j].id == last
    decreases 3 - level
  {
    if level < 3 {
      FirstOtherOutcome(queues[level], last);
      hide FirstOther;
      ChooseOtherOutcome(queues, last, level + 1);
    }
  }

  lemma {:induction false} ChooseAnyOutcome(queues: seq<seq<Task>>, level: nat)
    requires |queues| == 3 && level <= 3
    ensures var c := ChooseAny(queues, level);
      forall m :: level <= m < (if c.At? then c.level else 3) ==> queues[m] == []
    decreases 3 - level
  {
    if level < 3 { ChooseAnyOutcome(queues, level + 1); }
  }

  // Nobody is picked just when nobody is ready.
  lemma ChooseOutcome(queues: seq<seq<Task>>, last: nat)
    requires |queues| == 3
    ensures match Choose(queues, last)
            case At(l, i) => Picked(queues, last, l, i)
            case Nobody => forall m :: 0 <= m < 3 ==> queues[m] == []
  {
    ChooseOtherOutcome(queues, last, 0);
    ChooseAnyOutcome(queues, 0);
    hide ChooseOther, ChooseAny, FirstOther;
  }

  function CurrentId(s: Sched): nat {
    if s.current.Some? then s.current.value.id else 0
  }

  // The current task is put back where its state says; a dead one is dropped.
  function PutBack(s: Sched): (u: Sched)
    requires |s.queues| == 3
    ensures |u.queues| == 3
  {
    match s.current
    case None => s
    case Some(t) =>
      var r := s.(current := None);
      match t.state
      case Running => r.(queues := PushBack(s.queues, t.(state := Ready)))
      case Ready => r.(queues := PushBack(s.queues, t))
      case Blocked => r.(blocked := s.blocked + [t])
      case Dead => r
  }

  function Dispatch(s: Sched, last: nat): (u: Sched)
    requires |s.queues| == 3
    ensures |u.queues| == 3
  {
    match Choose(s.queues, last)
    case Nobody => s.(current := None)
    case At(l, i) =>
      s.(current := Some(s.queues[l][i].(state := Running)), queues := s.queues[l := Without(s.queues[l], i)])
  }

  function Reschedule(s: Sched): (u: Sched)
    requires |s.queues| == 3
    ensures |u.queues| == 3
  {
    Dispatch(PutBack(s), CurrentId(s))
  }

  function FindBlocked(q: seq<Task>, id: nat): (i: nat)
    ensures i <= |q| && (i < |q| ==> q[i].id == id)
  {
    if q == [] || q[0].id == id then 0 else 1 + FindBlocked(q[1..], id)
  }

  function Unblock(s: Sched, id: nat): (u: Sched)
    requires |s.queues| == 3
    ensures |u.queues| == 3
  {
    var i := FindBlocked(s.blocked, id);
    if i == |s.blocked| then s
    else s.(queues := PushBack(s.queues, s.blocked[i].(state := Ready)), blocked := Without(s.blocked, i))
  }

  function SetCurrent(s: Sched, state: TaskState): Sched {
    if s.current.Some? then s.(current := Some(s.current.value.(state := state))) else s
  }

  ////////////// Conservation //////////////

  // A task apart from its state.
  function Same(t: Task): Task {
    t.(state := Ready)
  }

  function One(t: Task, x: Task): nat {
    if Same(t) == x then 1 else 0
  }

  function Count(q: seq<Task>, x: Task): nat {
    if q == [] then 0 else One(q[0], x) + Count(q[1..], x)
  }

  // How often the task x sits anywhere in the scheduler.
  function Held(s: Sched, x: Task): nat
    requires |s.queues| == 3
  {
    Count(s.queues[0], x) + Count(s.queues[1], x) + Count(s.queues[2], x) + Count(s.blocked, x) +
    if s.current.Some? then One(s.current.value, x) else 0
  }

  lemma {:induction false} CountConcat(a: seq<Task>, b: seq<Task>, x: Task)
    ensures Count(a + b, x) == Count(a, x) + Count(b, x)
  {
    if a == [] {
      assert a + b == b;
    } else {
      CountConcat(a[1..], b, x);
      assert (a + b)[1..] == a[1..] + b;
    }
  }

  lemma CountAppend(q: seq<Task>, t: Task, x: Task)
    ensures Count(q + [t], x) == Count(q, x) + One(t, x)
  {
    CountConcat(q, [t], x);
    assert [t][1..] == [];
  }

  lemma CountTake(q: seq<Task>, i: nat, x: Task)
    requires i < |q|
    ensures Count(q, x) == Count(Without(q, i), x) + One(q[i], x)
  {
    assert q == q[..i] + ([q[i]] + q[i + 1..]);
    CountConcat(q[..i], [q[i]] + q[i + 1..], x);
    CountConcat(q[..i], q[i + 1..], x);
    assert ([q[i]] + q[i + 1..])[1..] == q[i + 1..];
  }

  lemma PushHeld(s: Sched, t: Task, x: Task)
    requires |s.queues| == 3
    ensures Held(s.(queues := PushBack(s.queues, t)), x) == Held(s, x) + One(t, x)
  {
    CountAppend(s.queues[Level(t.priority)], t, x);
  }

  predicate Dropped(s: Sched) {
    s.current.Some? && s.current.value.state.Dead?
  }

  lemma PutBackHeld(s: Sched, x: Task)
    requires |s.queues| == 3
    ensures |PutBack(s).queues| == 3 && PutBack(s).current.None?
    ensures Held(s, x) == Held(PutBack(s), x) + if Dropped(s) then One(s.current.value, x) else 0
  {
    if s.current.Some? {
      var t := s.current.value;
      match t.state
      case Running => PushHeld(s.(current := None), t.(state := Ready), x);
      case Ready => PushHeld(s.(current := None), t, x);
      case Blocked => CountAppend(s.blocked, t, x);
      case Dead =>
    }
  }

  lemma DispatchHeld(s: Sched, last: nat, x: Task)
    requires |s.queues| == 3 && s.current.None?
    ensures Held(Dispatch(s, last), x) == Held(s, x)
  {
    var c := Choose(s.queues, last);
    if c.At? { CountTake(s.queues[c.level], c.pos, x); }
  }

  // Rescheduling loses and duplicates nobody; only a dead current task leaves.
  lemma RescheduleConserves(s: Sched, x: Task)
    requires |s.queues| == 3
    ensures |Reschedule(s).queues| == 3
    ensures Held(s, x) == Held(Reschedule(s), x) + if Dropped(s) then One(s.current.value, x) else 0
  {
    PutBackHeld(s, x);
    DispatchHeld(PutBack(s), CurrentId(s), x);
  }

  lemma UnblockConserves(s: Sched, id: nat, x: Task)
    requires |s.queues| == 3
    ensures Held(Unblock(s, id), x) == Held(s, x)
  {
    var i := FindBlocked(s.blocked, id);
    if i < |s.blocked| {
      CountTake(s.blocked, i, x);
      PushHeld(s.(blocked := Without(s.blocked, i)), s.blocked[i].(state := Ready), x);
    }
  }
}
