// What holds of every capability table that can come about.
module CapabilityRuns {
  import opened Bytes
  import opened Resources
  import opened CapabilityModel

  predicate MayRevoke(t: Table, id: CapId, revoker: TaskId)
    requires Alive(t, id)
  {
    var cap := t.caps[id].value;
    cap.owner == revoker ||
    (cap.parent.Some? && Exists(t, cap.parent.value) && t.caps[cap.parent.value].value.owner == revoker)
  }

  function RevokeError(t: Table, id: CapId, revoker: TaskId): Option<CapError> {
    match Get(t, id)
    case Denied(e) => Some(e)
    case Granted(_) => if MayRevoke(t, id, revoker) then None else Some(NotOwner)
  }

  // Only the owner of a live capability, or the owner of the one it was delegated from, may revoke it.
  lemma RevokeErrorOutcome(t: Table, id: CapId, revoker: TaskId)
    ensures var e := RevokeError(t, id, revoker);
      if id >= |t.caps| || t.caps[id].None? then e == Some(NotFound)
      else
        var cap := t.caps[id].value;
        if cap.revoked then e == Some(Revoked)
        else if cap.owner == revoker then e == None
        else if cap.parent.None? || cap.parent.value >= |t.caps| || t.caps[cap.parent.value].None? then e == Some(NotOwner)
        else e == if t.caps[cap.parent.value].value.owner == revoker then None else Some(NotOwner)
  {
  }

  ghost function ActiveSet(t: Table): set<CapId> {
    set i | 0 <= i < |t.caps| && Alive(t, i)
  }

  // A revocation revokes exactly the capability and everything delegated from it, directly or not,
  // and changes nothing else.
  lemma RevokeExact(t: Table, id: CapId)
    requires Inv(t) && Alive(t, id)
    ensures var u := Mark(t, LiveReach(t, id));
      && |u.caps| == |t.caps| && u.nextId == t.nextId
      && (forall x: CapId :: Descends(t, id, x) ==> u.caps[x] == Some(t.caps[x].value.(revoked := true)))
      && (forall x: CapId :: x < |t.caps| && !Descends(t, id, x) ==> u.caps[x] == t.caps[x])
  {
    var u := Mark(t, LiveReach(t, id));
    forall x: CapId | Descends(t, id, x) ensures u.caps[x] == Some(t.caps[x].value.(revoked := true)) {
      if Alive(t, x) { LiveDescendantReached(t, id, x); }
    }
    forall x: CapId | x < |t.caps| && !Descends(t, id, x) ensures u.caps[x] == t.caps[x] {
      if LiveFrom(t, id, x) { LiveDescends(t, id, x); }
    }
  }

  // The number revoked is the number of live descendants and the drop in active capabilities.
  lemma RevokeCount(t: Table, id: CapId)
    requires Inv(t) && Alive(t, id)
    ensures LiveReach(t, id) == set x | x in ActiveSet(t) && Descends(t, id, x)
    ensures ActiveSet(Mark(t, LiveReach(t, id))) == ActiveSet(t) - LiveReach(t, id)
    ensures |ActiveSet(Mark(t, LiveReach(t, id)))| == |ActiveSet(t)| - |LiveReach(t, id)|
  {
    var reach := LiveReach(t, id);
    forall x: CapId ensures x in reach <==> x in ActiveSet(t) && Descends(t, id, x) {
      if x in reach { LiveDescends(t, id, x); }
      if x in ActiveSet(t) && Descends(t, id, x) { LiveDescendantReached(t, id, x); }
    }
    var left := ActiveSet(Mark(t, reach));
    assert left == ActiveSet(t) - reach;
    assert ActiveSet(t) == left + reach;
  }

  lemma MarkShape(t: Table, s: set<CapId>)
    requires Shape(t)
    ensures Shape(Mark(t, s))
  {
    forall i: CapId | 1 <= i < t.nextId ensures SlotOk(Mark(t, s), i) { assert SlotOk(t, i); }
  }

  lemma RevokeInv(t: Table, id: CapId)
    requires Inv(t) && Alive(t, id)
    ensures Inv(Mark(t, LiveReach(t, id)))
  {
    var u := Mark(t, LiveReach(t, id));
    RevokeExact(t, id);
    MarkShape(t, LiveReach(t, id));
    forall i: CapId | HasParent(u, i) && Alive(u, i) ensures Alive(u, ParentOf(u, i)) {
      assert HasParent(t, i) && Alive(t, i) && Alive(t, ParentOf(t, i));
      assert !Descends(t, id, i);
    }
    forall i: CapId | HasParent(u, i) ensures Exists(u, ParentOf(u, i)) && Attenuates(u, i) {
      assert HasParent(t, i) && Attenuates(t, i);
    }
  }

  lemma InsertSlots(t: Table, cap: Capability)
    requires Shape(t)
    ensures |Insert(t, cap).caps| == t.nextId + 1 && Insert(t, cap).caps[t.nextId] == Some(cap)
    ensures forall i :: 0 <= i < |t.caps| ==> Insert(t, cap).caps[i] == t.caps[i]
    ensures Insert(t, cap).caps[0].None?
  {
  }

  // A new capability, a root or one attenuating a live parent, keeps the invariant.
  lemma InsertInv(t: Table, cap: Capability)
    requires Inv(t) && cap.id == t.nextId
    requires cap.parent.Some? ==>
      && 1 <= cap.parent.value < t.nextId && Alive(t, cap.parent.value)
      && CanDelegateTo(t.caps[cap.parent.value].value.permissions, cap.permissions)
      && IsSubsetOf(cap.resource, t.caps[cap.parent.value].value.resource)
    ensures Inv(Insert(t, cap))
  {
    InsertSlots(t, cap);
    var u := Insert(t, cap);
    forall i: CapId | 1 <= i < u.nextId ensures SlotOk(u, i) {
      if i < t.nextId { assert SlotOk(t, i); }
    }
    forall i: CapId | HasParent(u, i)
      ensures Exists(u, ParentOf(u, i)) && Attenuates(u, i) && (Alive(u, i) ==> Alive(u, ParentOf(u, i)))
    {
      if i < t.nextId { assert HasParent(t, i) && Attenuates(t, i); }
    }
  }

  lemma DelegatedInv(t: Table, source: CapId, from: TaskId, to: TaskId, permissions: PermissionBits,
                     override: Option<ResourceRef>)
    requires Inv(t) && Delegated(t, source, from, to, permissions, override).Granted?
    ensures Inv(Insert(t, Delegated(t, source, from, to, permissions, override).value))
  {
    assert SlotOk(t, source);
    SubsetReflexive(t.caps[source].value.resource);
    InsertInv(t, Delegated(t, source, from, to, permissions, override).value);
  }

  ////////////// Runs //////////////

  datatype CapOp =
    | RootOp(owner: TaskId, resource: ResourceRef, permissions: PermissionBits)
    | DelegateOp(source: CapId, from: TaskId, to: TaskId, permissions: PermissionBits, override: Option<ResourceRef>)
    | RevokeOp(id: CapId, revoker: TaskId)

  ghost function Step(t: Table, op: CapOp): Table {
    match op
    case RootOp(owner, resource, permissions) => CreateRoot(t, owner, resource, permissions)
    case DelegateOp(source, from, to, permissions, override) =>
      var d := Delegated(t, source, from, to, permissions, override);
      if d.Granted? then Insert(t, d.value) else t
    case RevokeOp(id, revoker) => if RevokeError(t, id, revoker).None? then Mark(t, LiveReach(t, id)) else t
  }

  ghost function Run(ops: seq<CapOp>): Table {
    if ops == [] then EMPTY else Step(Run(ops[..|ops| - 1]), ops[|ops| - 1])
  }

  lemma RunNext(ops: seq<CapOp>, op: CapOp)
    ensures Run(ops + [op]) == Step(Run(ops), op)
  {
    hide Step;
    assert (ops + [op])[..|ops + [op]| - 1] == ops;
  }

  // Nothing but the revoked flag of a capability ever changes, and that only from live to revoked.
  ghost predicate Ages(t: Table, u: Table) {
    forall i: CapId :: Exists(t, i) ==>
      && Exists(u, i)
      && u.caps[i].value.(revoked := false) == t.caps[i].value.(revoked := false)
      && (Alive(u, i) ==> Alive(t, i))
  }

  lemma StepInv(t: Table, op: CapOp)
    requires Inv(t)
    ensures Inv(Step(t, op)) && Ages(t, Step(t, op))
  {
    match op
    case RootOp(owner, resource, permissions) =>
      var cap := Capability(t.nextId, resource, permissions, owner, None, false);
      InsertSlots(t, cap);
      InsertInv(t, cap);
    case DelegateOp(source, from, to, permissions, override) =>
      var d := Delegated(t, source, from, to, permissions, override);
      if d.Granted? {
        DelegatedInv(t, source, from, to, permissions, override);
        InsertSlots(t, d.value);
      }
    case RevokeOp(id, revoker) =>
      if RevokeError(t, id, revoker).None? { RevokeInv(t, id); }
  }

  lemma {:induction false} RunInv(ops: seq<CapOp>)
    ensures Inv(Run(ops))
  {
    if ops != [] {
      hide Inv, Step;
      RunInv(ops[..|ops| - 1]);
      StepInv(Run(ops[..|ops| - 1]), ops[|ops| - 1]);
    }
  }

  lemma AgesReflexive(t: Table)
    ensures Ages(t, t)
  {
  }

  lemma AgesTransitive(t: Table, u: Table, w: Table)
    requires Ages(t, u) && Ages(u, w)
    ensures Ages(t, w)
  {
  }

  // Revocation is final and capabilities are immutable: whatever happens later.
  lemma {:induction false} RunAges(ops: seq<CapOp>, more: seq<CapOp>)
    ensures Ages(Run(ops), Run(ops + more))
  {
    AgesReflexive(Run(ops));
    hide Inv, Step, Ages, Run;
    if more == [] {
      assert ops + more == ops;
    } else {
      var rest, last := more[..|more| - 1], more[|more| - 1];
      RunAges(ops, rest);
      RunInv(ops + rest);
      RunNext(ops + rest, last);
      assert ops + more == ops + rest + [last];
      StepInv(Run(ops + rest), last);
      AgesTransitive(Run(ops), Run(ops + rest), Run(ops + more));
    }
  }

  ////////////// Attenuation //////////////

  // Everything about the whole delegation chain above a live capability.
  lemma ChainAttenuates(t: Table, a: CapId, x: CapId)
    requires Inv(t) && Alive(t, x) && Descends(t, a, x)
    ensures Alive(t, a)
    ensures MissesNone(t.caps[a].value.permissions, t.caps[x].value.permissions)
    ensures IsSubsetOf(t.caps[x].value.resource, t.caps[a].value.resource)
    ensures a != x ==> MayDelegate(t.caps[a].value.permissions)
  {
    hide MissesNone, MayDelegate, Contains;
    ChainContains(t, a, x);
    ContainsIff(t.caps[a].value.permissions, t.caps[x].value.permissions);
    DelegateBit(t.caps[a].value.permissions);
  }

  lemma {:induction false} ChainContains(t: Table, a: CapId, x: CapId)
    requires Inv(t) && Alive(t, x) && Descends(t, a, x)
    ensures Alive(t, a)
    ensures Contains(t.caps[a].value.permissions, t.caps[x].value.permissions)
    ensures IsSubsetOf(t.caps[x].value.resource, t.caps[a].value.resource)
    ensures a != x ==> Contains(t.caps[a].value.permissions, DELEGATE)
    decreases x
  {
    SubsetReflexive(t.caps[x].value.resource);
    if x != a {
      var p := ParentOf(t, x);
      assert Attenuates(t, x);
      ChainContains(t, a, p);
      ContainsTransitive(t.caps[a].value.permissions, t.caps[p].value.permissions, t.caps[x].value.permissions);
      SubsetTransitive(t.caps[x].value.resource, t.caps[p].value.resource, t.caps[a].value.resource);
    }
  }

  // A successful validation vouches for the whole chain: every ancestor is live, grants what was
  // asked for and was allowed to delegate. It covers whatever this capability covers if and only if
  // the last byte of the address space was not gained on the way.
  lemma ValidatedChain(ops: seq<CapOp>, id: CapId, task: TaskId, required: PermissionBits, a: CapId)
    requires Validate(Run(ops), id, task, required).Granted? && Descends(Run(ops), a, id)
    ensures var t := Run(ops);
      && Exists(t, a) && Validate(t, a, t.caps[a].value.owner, required).Granted?
      && (CoversAll(t.caps[a].value.resource, t.caps[id].value.resource) <==>
            !Widens(t.caps[id].value.resource, t.caps[a].value.resource))
      && MissesNone(t.caps[a].value.permissions, required) && (a != id ==> MayDelegate(t.caps[a].value.permissions))
  {
    hide Inv, Run, CoversAll, Widens, Contains, MissesNone, MayDelegate;
    var t := Run(ops);
    RunInv(ops);
    DescendsOlder(t, a, id);
    ChainContains(t, a, id);
    ContainsTransitive(t.caps[a].value.permissions, t.caps[id].value.permissions, required);
    ContainsIff(t.caps[a].value.permissions, required);
    DelegateBit(t.caps[a].value.permissions);
    ShrinksIff(t.caps[id].value.resource, t.caps[a].value.resource);
  }

  // A table in which delegation has handed out a byte that its source does not have.
  lemma DelegationWidens()
    ensures var t := Run([RootOp(1, Memory(TWO_64 - 2, 1), DELEGATE),
                          DelegateOp(1, 1, 2, DELEGATE, Some(Memory(TWO_64 - 2, 2)))]);
      && Validate(t, 2, 2, DELEGATE).Granted? && Descends(t, 1, 2)
      && Covers(t.caps[2].value.resource, Byte(TWO_64 - 1)) && !Covers(t.caps[1].value.resource, Byte(TWO_64 - 1))
  {
    hide Run, Step;
    var root := RootOp(1, Memory(TWO_64 - 2, 1), DELEGATE);
    var child := DelegateOp(1, 1, 2, DELEGATE, Some(Memory(TWO_64 - 2, 2)));
    NothingDone();
    RunNext([], root);
    RunNext([root], child);
    assert [] + [root] == [root] && [root] + [child] == [root, child];
    RootThenDelegate(Memory(TWO_64 - 2, 1), Memory(TWO_64 - 2, 2));
    LastByteEscapes();
  }

  lemma NothingDone()
    ensures Run([]) == EMPTY
  {
  }

  lemma RootThenDelegate(whole: ResourceRef, part: ResourceRef)
    requires IsSubsetOf(part, whole)
    ensures Step(Step(EMPTY, RootOp(1, whole, DELEGATE)), DelegateOp(1, 1, 2, DELEGATE, Some(part))) ==
      Table([None, Some(Capability(1, whole, DELEGATE, 1, None, false)),
             Some(Capability(2, part, DELEGATE, 2, Some(1), false))], 3)
  {
    hide IsSubsetOf;
    assert CanDelegateTo(DELEGATE, DELEGATE);
    var t := Step(EMPTY, RootOp(1, whole, DELEGATE));
    assert t.caps == [None, Some(Capability(1, whole, DELEGATE, 1, None, false))];
  }

  ////////////// The outbound firewall //////////////

  datatype FirewallDecision = Allow | Deny(reason: string)

  function CheckOutbound(t: Table, task: TaskId, id: CapId, host: string, port: u16): FirewallDecision {
    match Validate(t, id, task, CONNECT)
    case Denied(_) => Deny("no valid network capability")
    case Granted(cap) =>
      match cap.resource
      case Network(h, p) =>
        if h != "*" && h != host then Deny("host not allowed")
        else if p != 0 && p != port then Deny("port not allowed")
        else Allow
      case _ => Deny("not a network capability")
  }

  // The firewall lets a task out to an endpoint exactly when its capability covers it, and then so
  // does, live and with CONNECT, every capability it was delegated from.
  lemma FirewallChain(ops: seq<CapOp>, task: TaskId, id: CapId, host: string, port: u16, a: CapId)
    requires Descends(Run(ops), a, id)
    ensures var t := Run(ops);
      && Exists(t, a) && Exists(t, id)
      && (CheckOutbound(t, task, id, host, port).Allow? <==>
            var cap := t.caps[id].value;
            && !cap.revoked && cap.owner == task && MayConnect(cap.permissions) && cap.resource.Network?
            && cap.resource.host in {"*", host} && cap.resource.port in {0, port})
      && (CheckOutbound(t, task, id, host, port).Allow? <==>
            Validate(t, id, task, CONNECT).Granted? && Covers(t.caps[id].value.resource, Endpoint(host, port)))
      && (CheckOutbound(t, task, id, host, port).Allow? ==>
            CheckOutbound(t, t.caps[a].value.owner, a, host, port).Allow?)
  {
    hide Contains, MayConnect, Run;
    DescendsOlder(Run(ops), a, id);
    ConnectBit(Run(ops).caps[id].value.permissions);
    if CheckOutbound(Run(ops), task, id, host, port).Allow? {
      ValidatedChain(ops, id, task, CONNECT, a);
    }
  }
}
