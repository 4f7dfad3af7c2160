// The agent registry with the kernel's mutually recursive kill, death notification and escalation.
module Supervisor {
  import opened Bytes
  import opened SupervisionModel
  import opened KillSteps

  lemma FragileNotices(R: Registry, h: Heights, x: AgentId)
    requires Forest(R, h) && x in R && !Survives(R[x].sup, 1)
    ensures Notices(R, h, x) == 2 * |R[x].children| + 1
  {
    ChildrenBelow(R, h, x);
    if R[x].children != [] { FragileFalls(R[x].sup, Notices(R, h, R[x].children[0])); }
  }

  lemma FragileFalls(g: Supervision, k: nat)
    requires !Survives(g, 1) && k >= 1
    ensures !Survives(g, k)
  {
  }

  // Escalating an agent that cannot take a notice: it is killed, and its parent hears of the death
  // once more than from the kill itself.
  lemma EscalationOutcome(R: Registry, h: Heights, x: AgentId)
    requires Forest(R, h) && x in R && !Survives(R[x].sup, 1)
    ensures Forest(Killed(R, h, x), h) && |Killed(R, h, x)| < |R|
    ensures Deliver(Killed(R, h, x), h, R[x].parent, 1) == Deliver(R, h, Some(x), 1)
  {
    FragileNotices(R, h, x);
    hide Forest, RemoveSubtree, Survives, Notices, Deliver, Killed;
    KilledDelivers(R, h, x);
    DeliverFalls(R, h, x, 1);
    DeliverTwice(RemoveSubtree(R, h, x), h, R[x].parent, 2 * |R[x].children| + 1, 1);
  }

  lemma GoneAfterKill(R: Registry, h: Heights, a: AgentId)
    requires Forest(R, h) && a in R
    ensures a !in Killed(R, h, a)
  {
    hide Forest, Notices, Deliver;
    KilledDelivers(R, h, a);
    assert Under(R, h, a, a);
    DeliverForest(RemoveSubtree(R, h, a), h, R[a].parent, Notices(R, h, a));
  }

  class AgentRegistry {
    var agents: Registry
    ghost var height: Heights

    ghost predicate Valid()
      reads this
    {
      Forest(agents, height)
    }

    constructor ()
      ensures Valid() && agents == map[]
    {
      agents := map[];
      height := map[];
    }

    // Register a new agent under its parent, unless the parent has all the children it may have.
    method Spawn(parent: Option<AgentId>, id: AgentId, policy: RestartPolicy, maxChildren: nat) returns (ok: bool)
      requires Valid() && Fresh(agents, id) && parent != Some(id)
      modifies this
      ensures Valid() && ok == !ParentFull(old(agents), parent)
      ensures agents == Spawned(old(agents), parent, id, policy, maxChildren)
      ensures ok <==> parent.None? || parent.value !in old(agents) ||
                      |old(agents)[parent.value].children| < old(agents)[parent.value].maxChildren
      ensures !ok ==> agents == old(agents)
      ensures ok ==>
        && agents.Keys == old(agents).Keys + {id}
        && agents[id] == Agent(Running, parent, [], maxChildren, Supervision(policy, 0, 5))
        && forall x :: x in old(agents) ==>
             agents[x] == if parent == Some(x) then old(agents)[x].(children := old(agents)[x].children + [id])
                          else old(agents)[x]
    {
      if parent.Some? && parent.value in agents {
        var p := agents[parent.value];
        if |p.children| >= p.maxChildren { return false; }
      }
      SpawnedForest(agents, height, parent, id, policy, maxChildren);
      hide Forest;
      height := Raised(agents, height, id);
      var agent := Agent(Running, parent, [], maxChildren, Supervision(policy, 0, DEFAULT_MAX_RESTARTS));
      var rest := agents[id := agent];
      if parent.Some? && parent.value in rest {
        var p := rest[parent.value];
        rest := rest[parent.value := p.(children := p.children + [id])];
      }
      agents := rest;
      ok := true;
    }

    // Kill an agent: first its children, one by one, then the agent itself, then tell its parent.
    // While its children die the agent is still registered and may be killed again from inside.
    method Kill(a: AgentId) returns (ok: bool)
      requires Valid()
      modifies this`agents
      ensures Valid() && ok == (a in old(agents)) && a !in agents
      ensures agents == Killed(old(agents), height, a)
      decreases |agents|, 0, if a in height then height[a] else 0, 1
    {
      if a !in agents { return false; }
      GoneAfterKill(agents, height, a);
      hide Forest, Dies, Killed, Deliver;
      ghost var R := agents;
      var parent, children := agents[a].parent, agents[a].children;
      DiesStart(R, height, a);
      agents := agents[a := agents[a].(state := Dead)];
      ghost var sup, fallen := KillChildren(a, children, R);
      DiesEnd(R, height, a, agents, sup, fallen);
      var rest := agents;
      if parent.Some? && parent.value in rest {
        rest := rest[parent.value := rest[parent.value].(children := Filter(rest[parent.value].children, a))];
      }
      agents := rest - {a};
      if parent.Some? { NotifyChildDeath(parent.value); } else { DeliverNobody(agents, height, 1); }
      ok := true;
    }

    method KillChildren(a: AgentId, children: seq<AgentId>, ghost R: Registry)
      returns (ghost sup: Supervision, ghost fallen: bool)
      requires a in height && a in R && children == R[a].children && Dies(R, height, a, 0, agents, R[a].sup, false)
      modifies this`agents
      ensures Dies(R, height, a, |children|, agents, sup, fallen)
      decreases |R|, 0, if a in height then height[a] else 0, 0
    {
      hide Forest, Dies, Killed;
      sup, fallen := R[a].sup, false;
      for i := 0 to |children|
        invariant Dies(R, height, a, i, agents, sup, fallen)
      {
        DiesForest(R, height, a, i, agents, sup, fallen);
        sup, fallen := DiesNext(R, height, a, i, agents, sup, fallen);
        var _ := Kill(children[i]);
      }
    }

    // The supervisor's reaction to one notice of a child's death.
    method NotifyChildDeath(p: AgentId)
      requires Valid()
      modifies this`agents
      ensures Valid() && agents == Deliver(old(agents), height, Some(p), 1)
      ensures p !in old(agents) ==> agents == old(agents)
      ensures p in old(agents) ==>
        var g := old(agents)[p].sup;
        if g.restarts >= g.maxRestarts || g.policy == Escalate then p !in agents
        else if g.policy == Permanent then agents == old(agents)
        else agents == old(agents)[p := old(agents)[p].(sup := g.(restarts := g.restarts + 1))]
      decreases |agents|, 2, 0, 0
    {
      if p !in agents { return; }
      OneNotice(agents, height, p);
      DeliverForest(agents, height, Some(p), 1);
      hide Forest, RemoveSubtree;
      var sup := agents[p].sup;
      if sup.restarts >= sup.maxRestarts {
        EscalateAgent(p);
        return;
      }
      match sup.policy
      case RestartOne => IncrementRestartCount(p);
      case RestartAll => IncrementRestartCount(p);
      case Escalate => EscalateAgent(p);
      case Permanent =>
    }

    // Counts one restart. For a supervisor that restarts its children and has restarts left, this is
    // what one notice comes to.
    method IncrementRestartCount(a: AgentId)
      requires Valid()
      modifies this`agents
      ensures Valid()
      ensures a in old(agents) && Restarts(old(agents)[a].sup.policy) && Survives(old(agents)[a].sup, 1) ==>
        agents == Deliver(old(agents), height, Some(a), 1)
      ensures agents == if a !in old(agents) then old(agents)
                        else old(agents)[a := old(agents)[a].(sup := old(agents)[a].sup.(restarts := old(agents)[a].sup.restarts + 1))]
    {
      if a in agents {
        var g := agents[a];
        BumpForest(agents, height, a, g.sup.(restarts := g.sup.restarts + 1), g.state);
        if Survives(g.sup, 1) { DeliverCopes(agents, height, a, 1); }
        hide Forest, Deliver, Survives;
        agents := agents[a := g.(sup := g.sup.(restarts := g.sup.restarts + 1))];
      }
    }

    // Escalation of an agent that cannot take the notice it got.
    method EscalateAgent(x: AgentId)
      requires Valid() && x in agents && !Survives(agents[x].sup, 1)
      modifies this`agents
      ensures Valid() && agents == Deliver(old(agents), height, Some(x), 1)
      decreases |agents|, 1, 0, 0
    {
      EscalationOutcome(agents, height, x);
      DeliverForest(agents, height, Some(x), 1);
      hide Forest, RemoveSubtree, Survives, Notices, Deliver, Killed;
      var parent := agents[x].parent;
      var _ := Kill(x);
      if parent.Some? { NotifyChildDeath(parent.value); } else { DeliverNobody(agents, height, 1); }
    }
  }
}
