// The scheduler object.
module Schedulers {
  import opened Bytes
  import opened SchedulerModel
  import opened SchedulerRuns

  class Scheduler {
    var queues: seq<seq<Task>>
    var current: Option<Task>
    var blocked: seq<Task>

    constructor ()
      ensures Value() == IDLE && Valid()
    {
      queues := [[], [], []];
      current := None;
      blocked := [];
      new;
      assert forall x :: Held(Value(), x) == 0;
    }

    ghost function Value(): Sched
      reads this
    {
      Sched(queues, current, blocked)
    }

    ghost predicate Valid()
      reads this
    {
      Inv(Value())
    }

    method Spawn(task: Task)
      requires Valid() && Legal(Value(), SpawnE(task))
      modifies this
      ensures Valid() && Value() == Step(old(Value()), SpawnE(task))
      ensures var l := if task.priority.Realtime? then 0 else if task.priority.Normal? then 1 else 2;
        queues == old(queues)[l := old(queues)[l] + [task]] && current == old(current) && blocked == old(blocked)
    {
      StepInv(Value(), SpawnE(task));
      hide Inv;
      var l := Level(task.priority);
      queues := queues[l := queues[l] + [task]];
    }

    // The first task of a queue that is not `last`.
    static method Position(q: seq<Task>, last: nat) returns (i: nat)
      ensures i == FirstOther(q, last)
    {
      i := 0;
      assert q[0..] == q;
      while i < |q| && q[i].id == last
        invariant i <= |q| && FirstOther(q, last) == i + FirstOther(q[i..], last)
      {
        assert q[i..][1..] == q[i + 1..];
        i := i + 1;
      }
    }

    // Takes the highest-priority task other than `last` out of its queue, or `last` if it is alone.
    method PickNextFair(last: nat)
      requires |queues| == 3
      modifies this
      ensures Value() == Dispatch(old(Value()), last)
      ensures blocked == old(blocked) && (current.None? <==> old(queues)[0] == old(queues)[1] == old(queues)[2] == [])
      ensures current.None? ==> queues == old(queues)
      ensures current.Some? ==> exists l: nat, i: nat ::
        && Picked(old(queues), last, l, i) && current == Some(old(queues)[l][i].(state := Running))
        && queues == old(queues)[l := old(queues)[l][..i] + old(queues)[l][i + 1..]]
    {
      PickOutcome(queues, last);
      hide Picked;
      var l := 0;
      while l < 3
        invariant l <= 3 && Value() == old(Value())
        invariant ChooseOther(queues, last, 0) == ChooseOther(queues, last, l)
      {
        var i := Position(queues[l], last);
        if i < |queues[l]| {
          Take(l, i);
          return;
        }
        l := l + 1;
      }
      l := 0;
      while l < 3
        invariant l <= 3 && Value() == old(Value())
        invariant ChooseAny(queues, 0) == ChooseAny(queues, l)
      {
        if queues[l] != [] {
          Take(l, 0);
          return;
        }
        l := l + 1;
      }
      current := None;
    }

    static lemma PickOutcome(queues: seq<seq<Task>>, last: nat)
      requires |queues| == 3
      ensures match Choose(queues, last)
              case At(l, i) => Picked(queues, last, l, i) && queues[l] != []
              case Nobody => queues[0] == queues[1] == queues[2] == []
    {
      ChooseOutcome(queues, last);
    }

    method Take(l: nat, i: nat)
      requires l < |queues| && i < |queues[l]|
      modifies this
      ensures queues == old(queues)[l := Without(old(queues)[l], i)] && blocked == old(blocked)
      ensures current == Some(old(queues)[l][i].(state := Running))
    {
      current := Some(queues[l][i].(state := Running));
      queues := queues[l := queues[l][..i] + queues[l][i + 1..]];
    }

    // Puts the current task back where its state says; a dead one is handed out.
    method PutBackCurrent() returns (dead: Option<Task>)
      requires Valid()
      modifies this
      ensures |queues| == 3 && Value() == PutBack(old(Value())) && current == None
      ensures blocked == old(blocked) + if old(current).Some? && old(current).value.state.Blocked? then [old(current).value] else []
      ensures forall l :: 0 <= l < 3 ==> queues[l] == old(queues)[l] + Back(old(Value()), l)
      ensures dead == if old(current).Some? && old(current).value.state.Dead? then old(current) else None
    {
      hide Unique;
      dead := None;
      if current.Some? {
        var t := current.value;
        current := None;
        match t.state {
          case Running =>
            var l := Level(t.priority);
            queues := queues[l := queues[l] + [t.(state := Ready)]];
          case Blocked =>
            blocked := blocked + [t];
          case Dead =>
            dead := Some(t);
        }
      }
    }

    // Puts the current task back and picks the next one. A dead task is handed out for cleaning up.
    method Resched() returns (oldId: nat, newId: nat, dead: Option<Task>)
      requires Valid()
      modifies this
      ensures Valid() && Value() == Step(old(Value()), RescheduleE)
      ensures oldId == (if old(current).Some? then old(current).value.id else 0)
      ensures newId == (if current.Some? then current.value.id else 0)
      ensures dead == if old(current).Some? && old(current).value.state.Dead? then old(current) else None
      ensures forall l :: 0 <= l < 3 && old(queues)[l] != [] && (forall m :: 0 <= m < l ==> old(queues)[m] == []) ==>
        current == Some(old(queues)[l][0].(state := Running))
      ensures (forall l :: 0 <= l < 3 ==> old(queues)[l] == []) ==>
        current == if old(current).Some? && old(current).value.state.Running? then old(current) else None
    {
      hide Inv, Dispatch, PutBack;
      RescheduleLaw(Value());
      assert Inv(Step(Value(), RescheduleE)) by { StepInv(Value(), RescheduleE); }
      oldId := if current.Some? then current.value.id else 0;
      dead := PutBackCurrent();
      PickNextFair(oldId);
      newId := if current.Some? then current.value.id else 0;
    }

    method BlockCurrent()
      requires Valid()
      modifies this
      ensures Valid() && Value() == Step(old(Value()), BlockE)
      ensures queues == old(queues) && blocked == old(blocked)
      ensures current == if old(current).None? then None else Some(old(current).value.(state := Blocked))
    {
      hide Inv;
      assert Inv(Step(Value(), BlockE)) by { StepInv(Value(), BlockE); }
      if current.Some? { current := Some(current.value.(state := Blocked)); }
    }

    method KillCurrent()
      requires Valid()
      modifies this
      ensures Valid() && Value() == Step(old(Value()), KillE)
      ensures queues == old(queues) && blocked == old(blocked)
      ensures current == if old(current).None? then None else Some(old(current).value.(state := Dead))
    {
      hide Inv;
      assert Inv(Step(Value(), KillE)) by { StepInv(Value(), KillE); }
      if current.Some? { current := Some(current.value.(state := Dead)); }
    }

    method BlockedPosition(id: nat) returns (i: nat)
      ensures i == FindBlocked(blocked, id) && i <= |blocked|
      ensures (i < |blocked| ==> blocked[i].id == id) && forall j :: 0 <= j < i ==> blocked[j].id != id
    {
      i := 0;
      assert blocked[0..] == blocked;
      while i < |blocked| && blocked[i].id != id
        invariant i <= |blocked| && FindBlocked(blocked, id) == i + FindBlocked(blocked[i..], id)
        invariant forall j :: 0 <= j < i ==> blocked[j].id != id
      {
        assert blocked[i..][1..] == blocked[i + 1..];
        i := i + 1;
      }
    }

    method UnblockTask(id: nat) returns (woken: bool)
      requires Valid()
      modifies this
      ensures Valid() && Value() == Step(old(Value()), UnblockE(id))
      ensures woken <==> exists i :: 0 <= i < |old(blocked)| && old(blocked)[i].id == id
      ensures !woken ==> Value() == old(Value())
      ensures woken ==> current == old(current) && exists i ::
        && 0 <= i < |old(blocked)| && old(blocked)[i].id == id && (forall j :: 0 <= j < i ==> old(blocked)[j].id != id)
        && blocked == old(blocked)[..i] + old(blocked)[i + 1..]
        && var t := old(blocked)[i].(state := Ready);
           var l := if t.priority.Realtime? then 0 else if t.priority.Normal? then 1 else 2;
           queues == old(queues)[l := old(queues)[l] + [t]]
    {
      hide Inv, FindBlocked;
      assert Inv(Step(Value(), UnblockE(id))) by { StepInv(Value(), UnblockE(id)); }
      var i := BlockedPosition(id);
      if i == |blocked| { return false; }
      var t := blocked[i].(state := Ready);
      blocked := blocked[..i] + blocked[i + 1..];
      var l := Level(t.priority);
      queues := queues[l := queues[l] + [t]];
      woken := true;
    }
  }
}
