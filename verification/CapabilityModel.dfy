// The capability table as a value: a forest of capabilities with attenuating delegation and
// cascading revocation.
module CapabilityModel {
  import opened Bytes
  import opened Collections
  import opened Resources

  type CapId = nat
  type TaskId = nat

  datatype Capability = Capability(id: CapId, resource: ResourceRef, permissions: PermissionBits, owner: TaskId,
                                   parent: Option<CapId>, revoked: bool)

  datatype CapError = NotFound | InsufficientPermissions | InvalidDelegation | Revoked | NotOwner

  datatype CapResult<+T> = Granted(value: T) | Denied(error: CapError)

  datatype Table = Table(caps: seq<Option<Capability>>, nextId: CapId)

  const EMPTY: Table := Table([], 1)

  predicate Exists(t: Table, id: CapId) {
    id < |t.caps| && t.caps[id].Some?
  }

  predicate Alive(t: Table, id: CapId) {
    Exists(t, id) && !t.caps[id].value.revoked
  }

  function Get(t: Table, id: CapId): CapResult<Capability> {
    if Alive(t, id) then Granted(t.caps[id].value)
    else if Exists(t, id) then Denied(Revoked) else Denied(NotFound)
  }

  function Validate(t: Table, id: CapId, task: TaskId, required: PermissionBits): CapResult<Capability> {
    match Get(t, id)
    case Denied(e) => Denied(e)
    case Granted(cap) =>
      if cap.owner != task then Denied(NotOwner)
      else if !Contains(cap.permissions, required) then Denied(InsufficientPermissions)
      else Granted(cap)
  }

  // The vector, grown with empty slots so that idx is in range.
  function Grown(caps: seq<Option<Capability>>, idx: nat): seq<Option<Capability>> {
    if |caps| <= idx then caps + seq(idx + 1 - |caps|, _ => None) else caps
  }

  function Insert(t: Table, cap: Capability): Table {
    Table(Grown(t.caps, t.nextId)[t.nextId := Some(cap)], t.nextId + 1)
  }

  function CreateRoot(t: Table, owner: TaskId, resource: ResourceRef, permissions: PermissionBits): Table {
    Insert(t, Capability(t.nextId, resource, permissions, owner, None, false))
  }

  // The capability a delegation would create.
  function Delegated(t: Table, source: CapId, from: TaskId, to: TaskId, permissions: PermissionBits,
                     override: Option<ResourceRef>): CapResult<Capability>
  {
    match Get(t, source)
    case Denied(e) => Denied(e)
    case Granted(cap) =>
      if cap.owner != from then Denied(NotOwner)
      else if !CanDelegateTo(cap.permissions, permissions) then Denied(InvalidDelegation)
      else if override.Some? && !IsSubsetOf(override.value, cap.resource) then Denied(InvalidDelegation)
      else
        var resource := if override.Some? then override.value else cap.resource;
        Granted(Capability(t.nextId, resource, permissions, to, Some(source), false))
  }

  // Who is let through, and what everybody else is told: a capability has to be there, live, the task's
  // own, and miss none of the permissions.
  lemma ValidateOutcome(t: Table, id: CapId, task: TaskId, required: PermissionBits)
    ensures var r := Validate(t, id, task, required);
      if id >= |t.caps| || t.caps[id].None? then r == Denied(NotFound)
      else
        var cap := t.caps[id].value;
        if cap.revoked then r == Denied(Revoked)
        else if cap.owner != task then r == Denied(NotOwner)
        else if !MissesNone(cap.permissions, required) then r == Denied(InsufficientPermissions)
        else r == Granted(cap)
  {
    hide Contains, MissesNone;
    if Alive(t, id) { ContainsIff(t.caps[id].value.permissions, required); }
  }

  lemma DelegatedOutcome(t: Table, source: CapId, from: TaskId, to: TaskId, permissions: PermissionBits,
                         override: Option<ResourceRef>)
    ensures var r := Delegated(t, source, from, to, permissions, override);
      if source >= |t.caps| || t.caps[source].None? then r == Denied(NotFound)
      else
        var cap := t.caps[source].value;
        if cap.revoked then r == Denied(Revoked)
        else if cap.owner != from then r == Denied(NotOwner)
        else if !MayDelegate(cap.permissions) || !MissesNone(cap.permissions, permissions) then r == Denied(InvalidDelegation)
        else if override.None? then r == Granted(Capability(t.nextId, cap.resource, permissions, to, Some(source), false))
        else if !IsSubsetOf(override.value, cap.resource) then r == Denied(InvalidDelegation)
        else r == Granted(Capability(t.nextId, override.value, permissions, to, Some(source), false))
  {
    hide Contains, MissesNone, MayDelegate;
    if Alive(t, source) {
      ContainsIff(t.caps[source].value.permissions, permissions);
      DelegateBit(t.caps[source].value.permissions);
    }
  }

  ////////////// The forest //////////////

  ghost predicate SlotOk(t: Table, i: CapId) {
    && Exists(t, i)
    && t.caps[i].value.id == i
    && (t.caps[i].value.parent.Some? ==> 1 <= t.caps[i].value.parent.value < i)
  }

  // Ids are slots, handed out in order, and parents are older than their children.
  ghost predicate Shape(t: Table) {
    && t.nextId >= 1
    && |t.caps| == (if t.nextId == 1 then 0 else t.nextId)
    && (t.nextId > 1 ==> t.caps[0].None?)
    && forall i: CapId :: 1 <= i < t.nextId ==> SlotOk(t, i)
  }

  predicate HasParent(t: Table, i: CapId) {
    Exists(t, i) && t.caps[i].value.parent.Some? && t.caps[i].value.parent.value < i
  }

  function ParentOf(t: Table, i: CapId): (p: CapId)
    requires HasParent(t, i)
    ensures p < i
  {
    t.caps[i].value.parent.value
  }

  // i was delegated within the bounds of its parent.
  predicate Attenuates(t: Table, i: CapId)
    requires HasParent(t, i) && Exists(t, ParentOf(t, i))
  {
    var cap, parent := t.caps[i].value, t.caps[ParentOf(t, i)].value;
    CanDelegateTo(parent.permissions, cap.permissions) && IsSubsetOf(cap.resource, parent.resource)
  }

  // Every reachable table: delegation attenuates, and a live capability's parent is live.
  ghost predicate Inv(t: Table) {
    && Shape(t)
    && (forall i :: HasParent(t, i) ==> Exists(t, ParentOf(t, i)) && Attenuates(t, i))
    && (forall i :: HasParent(t, i) && Alive(t, i) ==> Alive(t, ParentOf(t, i)))
  }

  // x is a or was delegated from it, directly or not.
  ghost predicate Descends(t: Table, a: CapId, x: CapId)
    decreases x
  {
    Exists(t, x) && (x == a || (HasParent(t, x) && Descends(t, a, ParentOf(t, x))))
  }

  // chain leads from a to x, each the parent of the next.
  ghost predicate Chain(t: Table, a: CapId, x: CapId, chain: seq<CapId>) {
    && chain != [] && chain[0] == a && chain[|chain| - 1] == x && (forall i :: 0 <= i < |chain| ==> Exists(t, chain[i]))
    && forall i :: 0 < i < |chain| ==> t.caps[chain[i]].value.parent == Some(chain[i - 1]) && chain[i - 1] < chain[i]
  }

  // Descent is being linked by a chain of parents.
  lemma {:induction false} DescendsIffChain(t: Table, a: CapId, x: CapId)
    requires Shape(t)
    ensures Descends(t, a, x) <==> exists chain :: Chain(t, a, x, chain)
    decreases x
  {
    if Descends(t, a, x) {
      if x == a {
        assert Chain(t, a, x, [a]);
      } else {
        var p := ParentOf(t, x);
        DescendsIffChain(t, a, p);
        var chain :| Chain(t, a, p, chain);
        assert Chain(t, a, x, chain + [x]);
      }
    }
    forall chain | Chain(t, a, x, chain) ensures Descends(t, a, x) { ChainDescends(t, a, x, chain); }
  }

  lemma {:induction false} ChainDescends(t: Table, a: CapId, x: CapId, chain: seq<CapId>)
    requires Chain(t, a, x, chain)
    ensures Descends(t, a, x)
    decreases |chain|
  {
    if |chain| > 1 {
      assert Chain(t, a, chain[|chain| - 2], chain[..|chain| - 1]);
      ChainDescends(t, a, chain[|chain| - 2], chain[..|chain| - 1]);
    }
  }

  // The same along live capabilities only: what the recursion reaches.
  ghost predicate LiveFrom(t: Table, a: CapId, x: CapId)
    decreases x
  {
    Alive(t, x) && (x == a || (HasParent(t, x) && LiveFrom(t, a, ParentOf(t, x))))
  }

  ghost function LiveReach(t: Table, a: CapId): set<CapId> {
    set x | 0 <= x < |t.caps| && LiveFrom(t, a, x)
  }

  // t with the capabilities in s revoked.
  ghost function Mark(t: Table, s: set<CapId>): Table {
    t.(caps := seq(|t.caps|, i requires 0 <= i < |t.caps| =>
      if i in s && t.caps[i].Some? then Some(t.caps[i].value.(revoked := true)) else t.caps[i]))
  }

  lemma {:induction false} DescendsOlder(t: Table, a: CapId, x: CapId)
    requires Descends(t, a, x)
    ensures a <= x && Exists(t, a)
    decreases x
  {
    if x != a { DescendsOlder(t, a, ParentOf(t, x)); }
  }

  lemma {:induction false} DescendsChain(t: Table, a: CapId, b: CapId, x: CapId)
    requires Descends(t, a, x) && Descends(t, b, x)
    ensures Descends(t, a, b) || Descends(t, b, a)
    decreases x
  {
    if x != a && x != b { DescendsChain(t, a, b, ParentOf(t, x)); }
  }

  lemma {:induction false} LiveDescends(t: Table, a: CapId, x: CapId)
    requires LiveFrom(t, a, x)
    ensures Descends(t, a, x) && Alive(t, a)
    decreases x
  {
    if x != a { LiveDescends(t, a, ParentOf(t, x)); }
  }

  // Siblings share no descendant.
  lemma SiblingsDisjoint(t: Table, c: CapId, d: CapId, x: CapId)
    requires HasParent(t, c) && HasParent(t, d) && ParentOf(t, c) == ParentOf(t, d)
    requires Descends(t, c, x) && Descends(t, d, x)
    ensures c == d
  {
    DescendsChain(t, c, d, x);
    if c != d {
      if Descends(t, c, d) { DescendsOlder(t, c, ParentOf(t, d)); } else { DescendsOlder(t, d, ParentOf(t, c)); }
    }
  }

  // With live parents, being live and a descendant is being reached.
  lemma {:induction false} LiveDescendantReached(t: Table, a: CapId, x: CapId)
    requires Inv(t) && Descends(t, a, x) && Alive(t, x)
    ensures LiveFrom(t, a, x)
    decreases x
  {
    if x != a { LiveDescendantReached(t, a, ParentOf(t, x)); }
  }

  ////////////// The recursion of a revocation //////////////

  // The live capabilities delegated directly from a.
  ghost predicate LiveChild(t: Table, a: CapId, c: CapId) {
    Alive(t, c) && HasParent(t, c) && ParentOf(t, c) == a
  }

  ghost predicate ReachedBy(t: Table, cs: seq<CapId>, x: CapId) {
    exists c :: c in cs && LiveFrom(t, c, x)
  }

  ghost function ReachAll(t: Table, cs: seq<CapId>): set<CapId> {
    set x | 0 <= x < |t.caps| && ReachedBy(t, cs, x)
  }

  lemma {:induction false} ReachedViaChild(t: Table, a: CapId, x: CapId) returns (c: CapId)
    requires LiveFrom(t, a, x) && x != a
    ensures LiveChild(t, a, c) && LiveFrom(t, c, x)
    decreases x
  {
    if ParentOf(t, x) == a {
      c := x;
    } else {
      c := ReachedViaChild(t, a, ParentOf(t, x));
    }
  }

  lemma {:induction false} ChildReaches(t: Table, a: CapId, c: CapId, x: CapId)
    requires Alive(t, a) && LiveChild(t, a, c) && LiveFrom(t, c, x)
    ensures LiveFrom(t, a, x) && x > a
    decreases x
  {
    if x != c { ChildReaches(t, a, c, ParentOf(t, x)); }
  }

  // What a reaches is a itself and what its live children reach.
  lemma ReachSplits(t: Table, a: CapId, cs: seq<CapId>)
    requires Alive(t, a) && forall c: CapId :: c in cs <==> LiveChild(t, a, c)
    ensures LiveReach(t, a) == {a} + ReachAll(t, cs) && a !in ReachAll(t, cs)
  {
    forall x: CapId ensures LiveFrom(t, a, x) <==> x == a || ReachedBy(t, cs, x) {
      if LiveFrom(t, a, x) && x != a { var c := ReachedViaChild(t, a, x); }
      if c :| c in cs && LiveFrom(t, c, x) { ChildReaches(t, a, c, x); }
    }
    forall c | c in cs ensures !LiveFrom(t, c, a) {
      if LiveFrom(t, c, a) { ChildReaches(t, a, c, a); }
    }
  }

  // Revoking elsewhere does not change what c reaches.
  lemma {:induction false} ReachFrame(t: Table, s: set<CapId>, c: CapId, x: CapId)
    requires forall y :: y in s ==> !Descends(t, c, y)
    ensures LiveFrom(Mark(t, s), c, x) <==> LiveFrom(t, c, x)
    decreases x
  {
    if Exists(t, x) {
      if HasParent(t, x) { ReachFrame(t, s, c, ParentOf(t, x)); }
      if LiveFrom(t, c, x) { LiveDescends(t, c, x); }
    }
  }

  // The next child: it still reaches what it reached at first, none of it revoked yet.
  lemma ReachNext(t: Table, a: CapId, cs: seq<CapId>, k: nat)
    requires Alive(t, a) && k < |cs| && Distinct(cs) && forall c: CapId :: c in cs ==> LiveChild(t, a, c)
    ensures var s, c := {a} + ReachAll(t, cs[..k]), cs[k];
      && LiveReach(Mark(t, s), c) == LiveReach(t, c)
      && s !! LiveReach(t, c)
      && ReachAll(t, cs[..k + 1]) == ReachAll(t, cs[..k]) + LiveReach(t, c)
  {
    var s, c := {a} + ReachAll(t, cs[..k]), cs[k];
    assert c in cs;
    forall y | y in s ensures !Descends(t, c, y) { NotBelow(t, a, cs, k, y); }
    forall x: CapId ensures LiveFrom(Mark(t, s), c, x) <==> LiveFrom(t, c, x) { ReachFrame(t, s, c, x); }
    forall x | x in LiveReach(t, c) ensures x !in s { LiveDescends(t, c, x); }
    assert cs[..k + 1] == cs[..k] + [c];
    forall x: CapId ensures ReachedBy(t, cs[..k + 1], x) <==> ReachedBy(t, cs[..k], x) || LiveFrom(t, c, x) {
      if LiveFrom(t, c, x) { assert c in cs[..k + 1]; }
    }
  }

  lemma NotBelow(t: Table, a: CapId, cs: seq<CapId>, k: nat, y: CapId)
    requires Alive(t, a) && k < |cs| && Distinct(cs) && forall c: CapId :: c in cs ==> LiveChild(t, a, c)
    requires y == a || y in ReachAll(t, cs[..k])
    ensures !Descends(t, cs[k], y)
  {
    assert cs[k] in cs;
    if y == a {
      if Descends(t, cs[k], a) { DescendsOlder(t, cs[k], a); }
    } else {
      var d :| d in cs[..k] && LiveFrom(t, d, y);
      assert d in cs && d != cs[k];
      LiveDescends(t, d, y);
      if Descends(t, cs[k], y) { SiblingsDisjoint(t, cs[k], d, y); }
    }
  }
}
