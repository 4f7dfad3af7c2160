// What a kill takes down, without recursion: one subtree, whose root is found by walking up from
// the killed agent past the supervisors that cannot take the notices that reach them.
module BlastRadius {
  import opened Bytes
  import opened SupervisionModel
  import opened Supervisor

  // x has fallen and its parent gets k notices of that: who is the topmost to fall, and how many
  // notices does that one's parent get? A fallen parent passes on two for every child it had.
  ghost function Cascade(R: Registry, h: Heights, x: AgentId, k: nat): (AgentId, nat)
    requires Forest(R, h) && x in R
    decreases Above(R, h, x)
  {
    if HasParent(R, x) && !Survives(R[R[x].parent.value].sup, k) then
      ParentHigher(R, h, x);
      Cascade(R, h, R[x].parent.value, 2 * |R[R[x].parent.value].children|)
    else (x, k)
  }

  // Only r's subtree is gone; r's parent is alive and has counted k notices.
  ghost function Settled(R: Registry, h: Heights, r: AgentId, k: nat): Registry
    requires Forest(R, h) && r in R
  {
    var S := RemoveSubtree(R, h, r);
    if HasParent(R, r) && R[r].parent.value in S
    then S[R[r].parent.value := S[R[r].parent.value].(sup := Bump(S[R[r].parent.value].sup, k))]
    else S
  }

  lemma ParentStays(R: Registry, h: Heights, x: AgentId)
    requires Forest(R, h) && HasParent(R, x)
    ensures var p, S := R[x].parent.value, RemoveSubtree(R, h, x);
      && p in S && S[p] == R[p].(children := S[p].children) && |S[p].children| == |R[p].children| - 1
      && Forest(S, h) && RemoveSubtree(S, h, p) == RemoveSubtree(R, h, p)
  {
    RemoveTwice(R, h, x);
    FilterDistinct(R[R[x].parent.value].children, x);
  }

  lemma {:induction false} CascadeClosedForm(R: Registry, h: Heights, x: AgentId, k: nat)
    requires Forest(R, h) && x in R
    ensures Cascade(R, h, x, k).0 in R && Forest(RemoveSubtree(R, h, x), h)
    ensures Deliver(RemoveSubtree(R, h, x), h, R[x].parent, k) ==
      Settled(R, h, Cascade(R, h, x, k).0, Cascade(R, h, x, k).1)
    decreases Above(R, h, x)
  {
    hide Forest, Survives, Bump, Above, RemoveSubtree;
    RemoveForest(R, h, x);
    if HasParent(R, x) {
      var p := R[x].parent.value;
      ParentHigher(R, h, x);
      ParentStays(R, h, x);
      if !Survives(R[p].sup, k) {
        CascadeClosedForm(R, h, p, 2 * |R[p].children|);
      }
    } else if R[x].parent.Some? {
      RemoveUpClosed(R, h, x);
    }
  }

  // The agents between the killed one and the topmost to fall.
  ghost predicate OnTheWay(R: Registry, h: Heights, r: AgentId, a: AgentId, y: AgentId)
    requires Forest(R, h)
  {
    Under(R, h, r, y) && Under(R, h, y, a) && y != a
  }

  predicate NeverFalls(g: Supervision) {
    g.policy.Permanent? && g.restarts < g.maxRestarts
  }

  lemma {:induction false} CascadeClimbs(R: Registry, h: Heights, x: AgentId, k: nat)
    requires Forest(R, h) && x in R
    ensures Under(R, h, Cascade(R, h, x, k).0, x)
    ensures forall y :: OnTheWay(R, h, Cascade(R, h, x, k).0, x, y) ==> y in R && !NeverFalls(R[y].sup)
    ensures var c := Cascade(R, h, x, k);
      HasParent(R, c.0) ==> Survives(R[R[c.0].parent.value].sup, c.1)
    decreases Above(R, h, x)
  {
    var r := Cascade(R, h, x, k).0;
    if HasParent(R, x) && !Survives(R[R[x].parent.value].sup, k) {
      var p := R[x].parent.value;
      ParentHigher(R, h, x);
      CascadeClimbs(R, h, p, 2 * |R[p].children|);
      forall y | OnTheWay(R, h, r, x, y) ensures y in R && !NeverFalls(R[y].sup) {
        assert Under(R, h, y, p);
        if y != p { assert OnTheWay(R, h, r, p, y); }
      }
    } else {
      forall y ensures !OnTheWay(R, h, x, x, y) {
        if Under(R, h, x, y) && y != x { UnderHeight(R, h, x, y); }
        if Under(R, h, y, x) && y != x { UnderHeight(R, h, y, x); }
      }
    }
  }

  // The blast radius of a kill. Exactly the subtree of one agent r goes: r is a or an ancestor of a,
  // and everyone from a's parent up to r could fall. Outside that subtree nothing changes except that
  // r's parent no longer lists r and has counted the notices it got, all of which it could take.
  lemma KillBlastRadius(R: Registry, h: Heights, a: AgentId) returns (r: AgentId, k: nat)
    requires Forest(R, h) && a in R
    ensures (r, k) == Cascade(R, h, a, Notices(R, h, a)) && r in R && Under(R, h, r, a)
    ensures Killed(R, h, a) == Settled(R, h, r, k)
    ensures forall x :: x in Killed(R, h, a) <==> x in R && !Under(R, h, r, x)
    ensures forall y :: OnTheWay(R, h, r, a, y) ==> y in R && !NeverFalls(R[y].sup)
    ensures HasParent(R, r) ==> Survives(R[R[r].parent.value].sup, k)
    ensures forall x :: x in Killed(R, h, a) && R[r].parent != Some(x) ==> Killed(R, h, a)[x] == R[x]
  {
    var c := Cascade(R, h, a, Notices(R, h, a));
    r, k := c.0, c.1;
    CascadeClosedForm(R, h, a, Notices(R, h, a));
    CascadeClimbs(R, h, a, Notices(R, h, a));
    KilledDelivers(R, h, a);
  }

  // A kill stays within the subtree of its target if and only if the parent, when there is one, can
  // take the notices that kill sends.
  lemma ConfinedIff(R: Registry, h: Heights, a: AgentId)
    requires Forest(R, h) && a in R
    ensures (forall x :: x in R && !Under(R, h, a, x) ==> x in Killed(R, h, a)) <==>
            (HasParent(R, a) ==> Survives(R[R[a].parent.value].sup, Notices(R, h, a)))
  {
    var r, k := KillBlastRadius(R, h, a);
    if HasParent(R, a) && !Survives(R[R[a].parent.value].sup, Notices(R, h, a)) {
      var p := R[a].parent.value;
      ParentHigher(R, h, a);
      CascadeClimbs(R, h, p, 2 * |R[p].children|);
      assert Under(R, h, r, p);
      assert !Under(R, h, a, p) by { if Under(R, h, a, p) { UnderHeight(R, h, a, p); } }
      assert p !in Killed(R, h, a);
    }
  }

  lemma PermanentConfines(R: Registry, h: Heights, a: AgentId)
    requires Forest(R, h) && HasParent(R, a) && NeverFalls(R[R[a].parent.value].sup)
    ensures forall x :: x in Killed(R, h, a) <==> x in R && !Under(R, h, a, x)
  {
    var _, _ := KillBlastRadius(R, h, a);
  }

  // One death can cost more than one restart: killing an escalating agent with three children uses
  // up seven, so a parent that allows five and has used none falls with it.
  lemma OneDeathTopplesParent(R: Registry, h: Heights, a: AgentId)
    requires Forest(R, h) && HasParent(R, a) && R[a].sup.policy == Escalate && |R[a].children| >= 3
    requires R[R[a].parent.value].sup == Supervision(RestartOne, 0, 5)
    ensures R[a].parent.value !in Killed(R, h, a)
  {
    var p := R[a].parent.value;
    FragileNotices(R, h, a);
    ParentHigher(R, h, a);
    var r, _ := KillBlastRadius(R, h, a);
    CascadeClimbs(R, h, p, 2 * |R[p].children|);
  }

  ////////////// Whole runs //////////////

  datatype AgentOp =
    | SpawnOp(parent: Option<AgentId>, id: AgentId, policy: RestartPolicy, maxChildren: nat)
    | KillOp(id: AgentId)
    | SetStateOp(id: AgentId, state: AgentState)

  ghost predicate Bounded(R: Registry) {
    forall a :: a in R ==> R[a].sup.restarts <= R[a].sup.maxRestarts && |R[a].children| <= R[a].maxChildren
  }

  lemma SpawnedBounded(R: Registry, parent: Option<AgentId>, id: AgentId, policy: RestartPolicy, maxChildren: nat)
    requires Bounded(R) && id !in R
    ensures Bounded(Spawned(R, parent, id, policy, maxChildren))
  {
  }

  lemma KilledBounded(R: Registry, h: Heights, a: AgentId)
    requires Forest(R, h) && Bounded(R)
    ensures Forest(Killed(R, h, a), h) && Bounded(Killed(R, h, a))
  {
    if a in R {
      KilledDelivers(R, h, a);
      var r, k := KillBlastRadius(R, h, a);
      forall x | x in Killed(R, h, a)
        ensures Killed(R, h, a)[x].sup.restarts <= R[x].sup.maxRestarts && |Killed(R, h, a)[x].children| <= R[x].maxChildren
        ensures Killed(R, h, a)[x].sup.maxRestarts == R[x].sup.maxRestarts && Killed(R, h, a)[x].maxChildren == R[x].maxChildren
      {
        if R[r].parent == Some(x) { ParentStays(R, h, r); }
      }
    }
  }

  // A state reached by spawning, killing, suspending and resuming: the registry and its heights.
  ghost predicate Reaches(ops: seq<AgentOp>, R: Registry, h: Heights) {
    if ops == [] then R == map[] && h == map[]
    else exists S: Registry, g: Heights :: Forest(S, g) && Reaches(ops[..|ops| - 1], S, g) && AgentStep(S, g, ops[|ops| - 1], R, h)
  }

  ghost predicate AgentStep(S: Registry, g: Heights, op: AgentOp, R: Registry, h: Heights)
    requires Forest(S, g)
  {
    match op
    case SpawnOp(parent, id, policy, maxChildren) =>
      Fresh(S, id) && parent != Some(id) && R == Spawned(S, parent, id, policy, maxChildren) && h == Raised(S, g, id)
    case KillOp(id) => R == Killed(S, g, id) && h == g
    case SetStateOp(id, state) => R == (if id in S then S[id := S[id].(state := state)] else S) && h == g
  }

  lemma StepKeeps(S: Registry, g: Heights, op: AgentOp, R: Registry, h: Heights)
    requires Forest(S, g) && Bounded(S) && AgentStep(S, g, op, R, h)
    ensures Forest(R, h) && Bounded(R)
  {
    match op
    case SpawnOp(parent, id, policy, maxChildren) =>
      SpawnedForest(S, g, parent, id, policy, maxChildren);
      SpawnedBounded(S, parent, id, policy, maxChildren);
    case KillOp(id) => KilledBounded(S, g, id);
    case SetStateOp(id, state) => if id in S { BumpForest(S, g, id, S[id].sup, state); }
  }

  // On every run: the registry stays a forest, no agent uses more restarts than it has and none has
  // more children than it may.
  lemma {:induction false} EveryRun(ops: seq<AgentOp>, R: Registry, h: Heights)
    requires Reaches(ops, R, h)
    ensures Forest(R, h) && Bounded(R)
  {
    if ops != [] {
      hide Forest, Bounded, AgentStep;
      var S, g :| Forest(S, g) && Reaches(ops[..|ops| - 1], S, g) && AgentStep(S, g, ops[|ops| - 1], R, h);
      EveryRun(ops[..|ops| - 1], S, g);
      StepKeeps(S, g, ops[|ops| - 1], R, h);
    }
  }
}
