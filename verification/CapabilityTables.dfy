// The shared capability table with its recursive revocation.
module CapabilityTables {
  import opened Bytes
  import opened Collections
  import opened Resources
  import opened CapabilityModel
  import opened CapabilityRuns

  lemma MarkTwice(t: Table, a: set<CapId>, b: set<CapId>)
    ensures Mark(Mark(t, a), b) == Mark(t, a + b)
  {
  }

  lemma NoneYet(t: Table, id: CapId, children: seq<CapId>)
    ensures ReachAll(t, children[..0]) == {} && Mark(t, {id} + ReachAll(t, children[..0])) == Mark(t, {id})
  {
    assert ReachAll(t, children[..0]) == {};
    assert {id} + ReachAll(t, children[..0]) == {id};
  }

  // One child more.
  lemma RevokeNext(t: Table, id: CapId, children: seq<CapId>, k: nat)
    requires Shape(t) && Alive(t, id) && k < |children| && Distinct(children)
    requires forall c: CapId :: c in children ==> LiveChild(t, id, c)
    ensures var u := Mark(t, {id} + ReachAll(t, children[..k]));
      && Shape(u) && |u.caps| == |t.caps| && id < children[k] < |t.caps|
      && Mark(u, LiveReach(u, children[k])) == Mark(t, {id} + ReachAll(t, children[..k + 1]))
      && |ReachAll(t, children[..k + 1])| == |ReachAll(t, children[..k])| + |LiveReach(u, children[k])|
  {
    assert children[k] in children;
    var s, reach := {id} + ReachAll(t, children[..k]), LiveReach(t, children[k]);
    MarkShape(t, s);
    ReachNext(t, id, children, k);
    assert |Mark(t, s).caps| == |t.caps|;
    MarkTwice(t, s, reach);
    hide Mark, ReachAll, LiveReach, Shape;
    assert s + reach == {id} + ReachAll(t, children[..k + 1]);
  }

  // What a revocation that is not refused does.
  lemma RevokeOutcome(t: Table, id: CapId, revoker: TaskId)
    requires Inv(t) && RevokeError(t, id, revoker).None?
    ensures Shape(t) && Alive(t, id) && Step(t, RevokeOp(id, revoker)) == Mark(t, LiveReach(t, id))
    ensures |LiveReach(t, id)| == |ActiveSet(t)| - |ActiveSet(Mark(t, LiveReach(t, id)))|
    ensures forall x: CapId :: Descends(t, id, x) ==> !Alive(Mark(t, LiveReach(t, id)), x)
  {
    RevokeCount(t, id);
    RevokeExact(t, id);
    hide Mark, LiveReach, ActiveSet, Descends;
  }

  class CapabilityTable {
    var capabilities: seq<Option<Capability>>
    var nextId: CapId

    constructor ()
      ensures Value() == EMPTY && Valid()
    {
      capabilities := [];
      nextId := 1;
    }

    ghost function Value(): Table
      reads this
    {
      Table(capabilities, nextId)
    }

    ghost predicate Valid()
      reads this
    {
      Inv(Value())
    }

    method Lookup(id: CapId) returns (r: CapResult<Capability>)
      ensures r == Get(Value(), id)
      ensures r == if id >= |capabilities| || capabilities[id].None? then Denied(NotFound)
                   else if capabilities[id].value.revoked then Denied(Revoked) else Granted(capabilities[id].value)
    {
      if id >= |capabilities| { return Denied(NotFound); }
      match capabilities[id]
      case None => return Denied(NotFound);
      case Some(cap) => return if cap.revoked then Denied(Revoked) else Granted(cap);
    }

    method CheckedLookup(id: CapId, task: TaskId, required: PermissionBits) returns (r: CapResult<Capability>)
      ensures r == Validate(Value(), id, task, required)
      ensures r.Granted? <==>
        && id < |capabilities| && capabilities[id].Some? && !capabilities[id].value.revoked
        && capabilities[id].value.owner == task
        && MissesNone(capabilities[id].value.permissions, required)
      ensures r.Granted? ==> r.value == capabilities[id].value
    {
      hide Contains, MissesNone;
      ValidateOutcome(Value(), id, task, required);
      r := Lookup(id);
      if r.Granted? {
        if r.value.owner != task { return Denied(NotOwner); }
        if !Contains(r.value.permissions, required) { return Denied(InsufficientPermissions); }
      }
    }

    method Store(cap: Capability)
      modifies this
      ensures Value() == Insert(old(Value()), cap)
    {
      var idx := nextId;
      nextId := nextId + 1;
      if |capabilities| <= idx {
        capabilities := capabilities + seq(idx + 1 - |capabilities|, _ => None);
      }
      capabilities := capabilities[idx := Some(cap)];
    }

    method MakeRoot(owner: TaskId, resource: ResourceRef, permissions: PermissionBits) returns (id: CapId)
      requires Valid()
      modifies this
      ensures Valid() && Value() == Step(old(Value()), RootOp(owner, resource, permissions))
      ensures id == old(nextId) && id < |capabilities| && nextId == id + 1
      ensures capabilities[id] == Some(Capability(id, resource, permissions, owner, None, false))
      ensures forall i :: 0 <= i < |old(capabilities)| ==> capabilities[i] == old(capabilities)[i]
    {
      StepInv(Value(), RootOp(owner, resource, permissions));
      InsertSlots(Value(), Capability(nextId, resource, permissions, owner, None, false));
      hide Inv;
      id := nextId;
      Store(Capability(id, resource, permissions, owner, None, false));
    }

    method Delegate(source: CapId, from: TaskId, to: TaskId, permissions: PermissionBits, override: Option<ResourceRef>)
      returns (r: CapResult<CapId>)
      requires Valid()
      modifies this
      ensures Valid() && Value() == Step(old(Value()), DelegateOp(source, from, to, permissions, override))
      ensures match Delegated(old(Value()), source, from, to, permissions, override)
              case Denied(e) => r == Denied(e)
              case Granted(cap) => r == Granted(old(nextId)) && Get(Value(), old(nextId)) == Granted(cap)
      ensures r.Granted? <==>
        && source < |old(capabilities)| && old(capabilities)[source].Some? && !old(capabilities)[source].value.revoked
        && old(capabilities)[source].value.owner == from && MayDelegate(old(capabilities)[source].value.permissions)
        && MissesNone(old(capabilities)[source].value.permissions, permissions)
        && (override.Some? ==> IsSubsetOf(override.value, old(capabilities)[source].value.resource))
    {
      hide Inv, Contains, MissesNone, MayDelegate, IsSubsetOf;
      DelegatedOutcome(Value(), source, from, to, permissions, override);
      StepInv(Value(), DelegateOp(source, from, to, permissions, override));
      var found := Lookup(source);
      if found.Denied? { return Denied(found.error); }
      var cap := found.value;
      if cap.owner != from { return Denied(NotOwner); }
      if !CanDelegateTo(cap.permissions, permissions) { return Denied(InvalidDelegation); }
      var resource := cap.resource;
      if override.Some? {
        if !IsSubsetOf(override.value, cap.resource) { return Denied(InvalidDelegation); }
        resource := override.value;
      }
      var id := nextId;
      Store(Capability(id, resource, permissions, to, Some(source), false));
      r := Granted(id);
    }

    // Revokes the capability and all that was delegated from it; the count is how many were live.
    method Revoke(id: CapId, revoker: TaskId) returns (r: CapResult<nat>)
      requires Valid()
      modifies this
      ensures Valid() && Value() == Step(old(Value()), RevokeOp(id, revoker))
      ensures match RevokeError(old(Value()), id, revoker)
              case Some(e) => r == Denied(e)
              case None =>
                && r == Granted(|ActiveSet(old(Value()))| - |ActiveSet(Value())|)
                && forall x: CapId :: Descends(old(Value()), id, x) ==> !Alive(Value(), x)
    {
      hide Inv, Mark, LiveReach, ActiveSet, Descends, RevokeError, Delegated, Insert;
      ghost var t := Value();
      assert Inv(Step(t, RevokeOp(id, revoker))) by { StepInv(t, RevokeOp(id, revoker)); }
      var refused := RevocationRefused(id, revoker);
      if refused.Some? { return Denied(refused.value); }
      RevokeOutcome(t, id, revoker);
      var count := RevokeRecursive(id);
      r := Granted(count);
    }

    // Whether the capability cannot be revoked by this task: its owner and its parent's may.
    method RevocationRefused(id: CapId, revoker: TaskId) returns (e: Option<CapError>)
      ensures e == RevokeError(Value(), id, revoker)
      ensures e.None? <==>
        && id < |capabilities| && capabilities[id].Some? && !capabilities[id].value.revoked
        && (capabilities[id].value.owner == revoker ||
            exists p :: 0 <= p < |capabilities| && capabilities[id].value.parent == Some(p) &&
                        capabilities[p].Some? && capabilities[p].value.owner == revoker)
    {
      var found := Lookup(id);
      if found.Denied? { return Some(found.error); }
      var cap := found.value;
      var authorized := cap.owner == revoker;
      if !authorized && cap.parent.Some? && cap.parent.value < |capabilities| {
        match capabilities[cap.parent.value]
        case Some(p) => authorized := p.owner == revoker;
        case None =>
      }
      e := if authorized then None else Some(NotOwner);
    }

    // Marks one capability and recurses into its live children. It stops at capabilities already
    // revoked, and while it runs a live capability may have a revoked parent.
    method RevokeRecursive(id: CapId) returns (count: nat)
      requires Shape(Value())
      modifies this
      ensures Value() == Mark(old(Value()), LiveReach(old(Value()), id))
      ensures count == |LiveReach(old(Value()), id)|
      decreases |capabilities| - id
    {
      ghost var t := Value();
      if id >= |capabilities| || capabilities[id].None? || capabilities[id].value.revoked {
        NothingReached(t, id);
        return 0;
      }
      capabilities := capabilities[id := Some(capabilities[id].value.(revoked := true))];
      assert Value() == Mark(t, {id});
      var children := LiveChildren(id, t);
      hide Shape, Mark, LiveReach, ReachAll, LiveChild;
      ReachSplits(t, id, children);
      NoneYet(t, id, children);
      count := 1;
      var k := 0;
      while k < |children|
        invariant 0 <= k <= |children| && Value() == Mark(t, {id} + ReachAll(t, children[..k]))
        invariant count == 1 + |ReachAll(t, children[..k])|
      {
        RevokeNext(t, id, children, k);
        var c := RevokeRecursive(children[k]);
        count := count + c;
        k := k + 1;
      }
      assert children[..k] == children;
    }

    // The live children of a capability that was just marked.
    method LiveChildren(id: CapId, ghost t: Table) returns (children: seq<CapId>)
      requires Shape(t) && Alive(t, id) && Value() == Mark(t, {id})
      ensures Distinct(children) && forall c: CapId :: c in children <==> LiveChild(t, id, c)
    {
      children := [];
      for i := 0 to |capabilities|
        invariant Ascending(children) && forall c: CapId :: c in children <==> c < i && LiveChild(t, id, c)
        invariant forall k :: 0 <= k < |children| ==> children[k] < i
      {
        assert i >= 1 ==> SlotOk(t, i);
        match capabilities[i]
        case Some(cap) => if cap.parent == Some(id) && !cap.revoked { children := children + [cap.id]; }
        case None =>
      }
    }

    method ActiveCount() returns (n: nat)
      ensures n == |ActiveSet(Value())|
    {
      n := 0;
      ghost var seen: set<CapId> := {};
      for i := 0 to |capabilities|
        invariant n == |seen| && seen == set j | 0 <= j < i && Alive(Value(), j)
      {
        if capabilities[i].Some? && !capabilities[i].value.revoked {
          seen := seen + {i};
          n := n + 1;
        }
      }
    }
  }

  lemma NothingReached(t: Table, id: CapId)
    requires !Alive(t, id)
    ensures LiveReach(t, id) == {} && Mark(t, {}) == t
  {
    forall x: CapId ensures !LiveFrom(t, id, x) {
      if LiveFrom(t, id, x) { LiveDescends(t, id, x); }
    }
  }
}
