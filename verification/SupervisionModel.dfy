// The agent registry as a forest, and in closed form what killing an agent does to it.
module SupervisionModel {
  import opened Bytes
  import opened Collections

  type AgentId = nat

  datatype RestartPolicy = RestartOne | RestartAll | Escalate | Permanent

  datatype AgentState = Initializing | Running | Waiting | Suspended | Dead

  // How an agent supervises its children: its policy and its restart budget.
  datatype Supervision = Supervision(policy: RestartPolicy, restarts: nat, maxRestarts: nat)

  datatype Agent = Agent(state: AgentState, parent: Option<AgentId>, children: seq<AgentId>, maxChildren: nat,
                         sup: Supervision)

  type Registry = map<AgentId, Agent>

  // Heights witness that the parent relation has no cycle: parents are higher than their children.
  type Heights = map<AgentId, nat>

  ghost predicate ChildOk(R: Registry, h: Heights, a: AgentId, c: AgentId)
    requires a in h
  {
    c in R && c in h && R[c].parent == Some(a) && h[c] < h[a]
  }

  // x and its parent are both registered.
  predicate HasParent(R: Registry, x: AgentId) {
    x in R && R[x].parent.Some? && R[x].parent.value in R
  }

  // Child lists and parent pointers agree, no child dangles, there is no cycle.
  ghost predicate Forest(R: Registry, h: Heights) {
    && (forall a :: a in R ==> a in h && Distinct(R[a].children))
    && (forall a: AgentId, c: AgentId :: a in R && c in R[a].children ==> ChildOk(R, h, a, c))
    && (forall c :: HasParent(R, c) ==> c in R[R[c].parent.value].children)
  }

  ghost function Above(R: Registry, h: Heights, x: AgentId): set<AgentId>
    requires Forest(R, h) && x in R
  {
    set y | y in R && h[y] > h[x]
  }

  lemma ParentHigher(R: Registry, h: Heights, x: AgentId)
    requires Forest(R, h) && HasParent(R, x)
    ensures h[x] < h[R[x].parent.value] && Above(R, h, R[x].parent.value) < Above(R, h, x)
  {
    var p := R[x].parent.value;
    assert ChildOk(R, h, p, x);
    assert p in Above(R, h, x);
  }

  // x is a or a descendant of a.
  ghost predicate Under(R: Registry, h: Heights, a: AgentId, x: AgentId)
    requires Forest(R, h)
    decreases if x in R then Above(R, h, x) else {}
  {
    x in R && (x == a || (HasParent(R, x) && (ParentHigher(R, h, x); Under(R, h, a, R[x].parent.value))))
  }

  function Filter(s: seq<AgentId>, x: AgentId): seq<AgentId> {
    if s == [] then [] else (if s[0] == x then [] else [s[0]]) + Filter(s[1..], x)
  }

  // R without a and its descendants; a is also struck from its parent's child list.
  ghost function RemoveSubtree(R: Registry, h: Heights, a: AgentId): Registry
    requires Forest(R, h) && a in R
  {
    map x | x in R && !Under(R, h, a, x) ::
      if R[a].parent == Some(x) then R[x].(children := Filter(R[x].children, a)) else R[x]
  }

  ////////////// Shape //////////////

  lemma {:induction false} UnderHeight(R: Registry, h: Heights, a: AgentId, x: AgentId)
    requires Forest(R, h) && Under(R, h, a, x)
    ensures a in R && h[x] <= h[a] && (x != a ==> h[x] < h[a])
    decreases Above(R, h, x)
  {
    if x != a {
      ParentHigher(R, h, x);
      UnderHeight(R, h, a, R[x].parent.value);
    }
  }

  lemma {:induction false} UnderTrans(R: Registry, h: Heights, a: AgentId, b: AgentId, x: AgentId)
    requires Forest(R, h) && Under(R, h, a, b) && Under(R, h, b, x)
    ensures Under(R, h, a, x)
    decreases Above(R, h, x)
  {
    if x != b {
      ParentHigher(R, h, x);
      UnderTrans(R, h, a, b, R[x].parent.value);
    }
  }

  // path leads from a down to x, each in the child list of the one before.
  ghost predicate Path(R: Registry, a: AgentId, x: AgentId, path: seq<AgentId>) {
    && path != [] && path[0] == a && path[|path| - 1] == x && (forall i :: 0 <= i < |path| ==> path[i] in R)
    && forall i :: 0 < i < |path| ==> path[i] in R[path[i - 1]].children
  }

  // Being under a is being reached from a through child lists.
  lemma {:induction false} UnderIffPath(R: Registry, h: Heights, a: AgentId, x: AgentId)
    requires Forest(R, h)
    ensures Under(R, h, a, x) <==> exists path :: Path(R, a, x, path)
    decreases if x in R then Above(R, h, x) else {}
  {
    if Under(R, h, a, x) {
      if x == a {
        assert Path(R, a, x, [a]);
      } else {
        var p := R[x].parent.value;
        ParentHigher(R, h, x);
        UnderIffPath(R, h, a, p);
        var path :| Path(R, a, p, path);
        assert Path(R, a, x, path + [x]);
      }
    }
    forall path | Path(R, a, x, path) ensures Under(R, h, a, x) { PathUnder(R, h, a, x, path); }
  }

  lemma {:induction false} PathUnder(R: Registry, h: Heights, a: AgentId, x: AgentId, path: seq<AgentId>)
    requires Forest(R, h) && Path(R, a, x, path)
    ensures Under(R, h, a, x)
    decreases |path|
  {
    if |path| > 1 {
      var p := path[|path| - 2];
      assert Path(R, a, p, path[..|path| - 1]);
      PathUnder(R, h, a, p, path[..|path| - 1]);
      assert ChildOk(R, h, p, x);
      ParentHigher(R, h, x);
    }
  }

  // Striking x takes out its one place and leaves the rest in order.
  lemma {:induction false} FilterStrikes(s: seq<AgentId>, x: AgentId, i: nat)
    requires Distinct(s) && i <= |s| && (if i < |s| then s[i] == x else x !in s)
    ensures Filter(s, x) == if i < |s| then s[..i] + s[i + 1..] else s
  {
    if s != [] {
      if i == 0 {
        if s[1..] != [] { FilterStrikes(s[1..], x, |s| - 1); }
      } else {
        FilterStrikes(s[1..], x, i - 1);
        if i < |s| { assert s[..i] == [s[0]] + s[1..][..i - 1]; }
      }
    }
  }

  // The ancestors of x form a chain.
  lemma {:induction false} UnderChain(R: Registry, h: Heights, a: AgentId, b: AgentId, x: AgentId)
    requires Forest(R, h) && Under(R, h, a, x) && Under(R, h, b, x)
    ensures Under(R, h, a, b) || Under(R, h, b, a)
    decreases Above(R, h, x)
  {
    if x != a && x != b {
      ParentHigher(R, h, x);
      UnderChain(R, h, a, b, R[x].parent.value);
    }
  }

  lemma ChildUnder(R: Registry, h: Heights, a: AgentId, c: AgentId, x: AgentId)
    requires Forest(R, h) && a in R && c in R[a].children && Under(R, h, c, x)
    ensures Under(R, h, a, x) && x != a
  {
    assert ChildOk(R, h, a, c);
    assert Under(R, h, a, a) && Under(R, h, a, c);
    UnderTrans(R, h, a, c, x);
    UnderHeight(R, h, c, x);
  }

  lemma SiblingsDisjoint(R: Registry, h: Heights, a: AgentId, c: AgentId, d: AgentId, x: AgentId)
    requires Forest(R, h) && a in R && c in R[a].children && d in R[a].children
    requires Under(R, h, c, x) && Under(R, h, d, x)
    ensures c == d
  {
    assert ChildOk(R, h, a, c) && ChildOk(R, h, a, d);
    UnderChain(R, h, c, d, x);
    if c != d {
      if Under(R, h, c, d) { UnderHeight(R, h, c, a); } else { UnderHeight(R, h, d, a); }
    }
  }

  // S keeps some agents of R, with their parents.
  ghost predicate UpClosed(R: Registry, S: Registry) {
    forall y :: y in S ==> y in R && S[y].parent == R[y].parent && (HasParent(R, y) ==> R[y].parent.value in S)
  }

  lemma {:induction false} UnderFrame(R: Registry, S: Registry, h: Heights, a: AgentId, x: AgentId)
    requires Forest(R, h) && Forest(S, h) && UpClosed(R, S) && x in S
    ensures Under(S, h, a, x) <==> Under(R, h, a, x)
    decreases Above(R, h, x)
  {
    if x != a && HasParent(R, x) {
      ParentHigher(R, h, x);
      UnderFrame(R, S, h, a, R[x].parent.value);
    }
  }

  ////////////// Removing a subtree //////////////

  lemma {:induction false} FilterElements(s: seq<AgentId>, x: AgentId)
    ensures forall y :: y in Filter(s, x) <==> y in s && y != x
  {
    if s != [] {
      FilterElements(s[1..], x);
      assert s == [s[0]] + s[1..];
    }
  }

  lemma {:induction false} FilterDistinct(s: seq<AgentId>, x: AgentId)
    requires Distinct(s)
    ensures Distinct(Filter(s, x))
    ensures |Filter(s, x)| == if x in s then |s| - 1 else |s|
    ensures x !in s ==> Filter(s, x) == s
    ensures s != [] && x == s[0] ==> Filter(s, x) == s[1..]
  {
    if s != [] {
      assert s == [s[0]] + s[1..];
      FilterDistinct(s[1..], x);
      FilterElements(s[1..], x);
      assert s[0] !in s[1..] && s[0] !in Filter(s[1..], x);
    }
  }

  lemma RemoveUpClosed(R: Registry, h: Heights, a: AgentId)
    requires Forest(R, h) && a in R
    ensures UpClosed(R, RemoveSubtree(R, h, a))
    ensures a !in RemoveSubtree(R, h, a) && |RemoveSubtree(R, h, a)| < |R|
  {
    var S := RemoveSubtree(R, h, a);
    assert S.Keys <= R.Keys - {a};
    SubsetSize(S.Keys, R.Keys - {a});
  }

  // What is left is a forest again.
  lemma RemoveForest(R: Registry, h: Heights, a: AgentId)
    requires Forest(R, h) && a in R
    ensures Forest(RemoveSubtree(R, h, a), h)
  {
    var S := RemoveSubtree(R, h, a);
    forall x | x in S ensures x in h && Distinct(S[x].children) {
      FilterDistinct(R[x].children, a);
    }
    forall x: AgentId, c: AgentId | x in S && c in S[x].children ensures ChildOk(S, h, x, c) {
      FilterElements(R[x].children, a);
      assert ChildOk(R, h, x, c);
    }
    forall c | HasParent(S, c) ensures c in S[S[c].parent.value].children {
      FilterElements(R[R[c].parent.value].children, a);
    }
  }

  // T is, at x, what removing c's subtree from S leaves.
  ghost predicate RemovedAt(S: Registry, h: Heights, c: AgentId, T: Registry, x: AgentId)
    requires Forest(S, h) && c in S
  {
    && (x in T <==> x in S && !Under(S, h, c, x))
    && (x in T ==> T[x] == if S[c].parent == Some(x) then S[x].(children := Filter(S[x].children, c)) else S[x])
  }

  lemma RemovedEverywhere(S: Registry, h: Heights, c: AgentId, T: Registry)
    requires Forest(S, h) && c in S && forall x :: RemovedAt(S, h, c, T, x)
    ensures RemoveSubtree(S, h, c) == T
  {
    hide Forest;
    assert forall x :: x in T ==> RemovedAt(S, h, c, T, x);
    assert forall x :: x in S ==> RemovedAt(S, h, c, T, x);
    assert RemoveSubtree(S, h, c).Keys == T.Keys;
  }

  // Removing x and then its parent is removing the parent.
  lemma RemoveTwice(R: Registry, h: Heights, x: AgentId)
    requires Forest(R, h) && HasParent(R, x)
    ensures var p := R[x].parent.value; var S := RemoveSubtree(R, h, x);
      p in S && Forest(S, h) && RemoveSubtree(S, h, p) == RemoveSubtree(R, h, p)
  {
    var p := R[x].parent.value;
    var S, T := RemoveSubtree(R, h, x), RemoveSubtree(R, h, p);
    RemoveForest(R, h, x);
    RemoveUpClosed(R, h, x);
    ParentHigher(R, h, x);
    assert !Under(R, h, x, p) by { if Under(R, h, x, p) { UnderHeight(R, h, x, p); } }
    forall y ensures RemovedAt(S, h, p, T, y) { RemoveTwiceAt(R, h, x, p, S, y); }
    hide Forest, RemoveSubtree, RemovedAt;
    RemovedEverywhere(S, h, p, T);
  }

  lemma RemoveTwiceAt(R: Registry, h: Heights, x: AgentId, p: AgentId, S: Registry, y: AgentId)
    requires Forest(R, h) && HasParent(R, x) && p == R[x].parent.value && p in S
    requires S == RemoveSubtree(R, h, x) && Forest(S, h) && UpClosed(R, S)
    ensures RemovedAt(S, h, p, RemoveSubtree(R, h, p), y)
  {
    hide Forest;
    assert Under(R, h, p, p) && Under(R, h, p, x);
    if y in S {
      UnderFrame(R, S, h, p, y);
    } else if y in R {
      UnderTrans(R, h, p, x, y);
    }
  }

  ////////////// Supervision //////////////

  // The agent takes k notices of child deaths without falling.
  predicate Survives(g: Supervision, k: nat) {
    k == 0 || (g.restarts < g.maxRestarts &&
               match g.policy
               case Escalate => false
               case Permanent => true
               case _ => g.restarts + k <= g.maxRestarts)
  }

  // The policy counts restarts.
  predicate Restarts(policy: RestartPolicy) {
    policy.RestartOne? || policy.RestartAll?
  }

  function Bump(g: Supervision, k: nat): Supervision {
    if Restarts(g.policy) then g.(restarts := g.restarts + k) else g
  }

  lemma SurvivesTwice(g: Supervision, j: nat, k: nat)
    requires Survives(g, j)
    ensures Survives(Bump(g, j), k) <==> Survives(g, j + k)
    ensures Bump(Bump(g, j), k) == Bump(g, j + k)
  {
  }

  lemma SurvivesFewer(g: Supervision, j: nat, k: nat)
    requires Survives(g, j + k)
    ensures Survives(g, j)
  {
  }

  ghost predicate Below(R: Registry, h: Heights, cs: seq<AgentId>, height: nat) {
    forall c :: c in cs ==> c in R && c in h && h[c] < height
  }

  lemma ChildrenBelow(R: Registry, h: Heights, a: AgentId)
    requires Forest(R, h) && a in R
    ensures Below(R, h, R[a].children, h[a])
  {
    forall c | c in R[a].children ensures c in R && c in h && h[c] < h[a] { assert ChildOk(R, h, a, c); }
  }

  // How many notices of its death the parent of a killed agent receives.
  ghost function Notices(R: Registry, h: Heights, a: AgentId): nat
    requires Forest(R, h) && a in R
    decreases h[a], 1, 0
  {
    ChildrenBelow(R, h, a);
    2 * Reentries(R, h, R[a].sup, R[a].children, h[a]) + 1
  }

  // How often the kill of an agent re-enters itself while its children cs die one after the other:
  // not as long as the agent copes with the notices, and once per remaining child from then on.
  ghost function Reentries(R: Registry, h: Heights, g: Supervision, cs: seq<AgentId>, height: nat): nat
    requires Forest(R, h) && Below(R, h, cs, height)
    decreases height, 0, |cs|
  {
    if cs == [] then 0
    else
      var k := Notices(R, h, cs[0]);
      if Survives(g, k) then Reentries(R, h, Bump(g, k), cs[1..], height) else |cs|
  }

  // x is gone; its parent, if registered, takes k notices of that, and falls if they are too many.
  // The parent of a fallen agent takes two notices per child the fallen one had left, plus two.
  ghost function Deliver(R: Registry, h: Heights, p: Option<AgentId>, k: nat): Registry
    requires Forest(R, h)
    decreases |R|
  {
    if p.None? || p.value !in R then R
    else if Survives(R[p.value].sup, k) then R[p.value := R[p.value].(sup := Bump(R[p.value].sup, k))]
    else
      RemoveForest(R, h, p.value);
      RemoveUpClosed(R, h, p.value);
      Deliver(RemoveSubtree(R, h, p.value), h, R[p.value].parent, 2 * |R[p.value].children| + 2)
  }

  // The registry after a kill.
  ghost function Killed(R: Registry, h: Heights, a: AgentId): Registry
    requires Forest(R, h)
  {
    if a !in R then R
    else
      RemoveForest(R, h, a);
      Deliver(RemoveSubtree(R, h, a), h, R[a].parent, Notices(R, h, a))
  }

  // Deliver and Killed, one equation at a time.
  lemma DeliverFalls(R: Registry, h: Heights, x: AgentId, k: nat)
    requires Forest(R, h) && x in R && !Survives(R[x].sup, k)
    ensures Forest(RemoveSubtree(R, h, x), h)
    ensures Deliver(R, h, Some(x), k) == Deliver(RemoveSubtree(R, h, x), h, R[x].parent, 2 * |R[x].children| + 2)
  {
    hide Forest, RemoveSubtree, Survives;
    RemoveForest(R, h, x);
  }

  lemma DeliverCopes(R: Registry, h: Heights, x: AgentId, k: nat)
    requires Forest(R, h) && x in R && Survives(R[x].sup, k)
    ensures Deliver(R, h, Some(x), k) == R[x := R[x].(sup := Bump(R[x].sup, k))]
  {
    hide Forest, RemoveSubtree, Survives, Bump;
  }

  lemma DeliverAbsent(R: Registry, h: Heights, x: AgentId, k: nat)
    requires Forest(R, h) && x !in R
    ensures Deliver(R, h, Some(x), k) == R
  {
    hide Forest, RemoveSubtree, Survives, Bump;
  }

  // One notice, in plain terms: an agent out of restarts or with policy Escalate falls, a permanent one
  // takes no note, and any other counts one restart.
  lemma OneNotice(R: Registry, h: Heights, p: AgentId)
    requires Forest(R, h) && p in R
    ensures var g, S := R[p].sup, Deliver(R, h, Some(p), 1);
      if g.restarts >= g.maxRestarts || g.policy == Escalate then p !in S
      else if g.policy == Permanent then S == R
      else S == R[p := R[p].(sup := g.(restarts := g.restarts + 1))]
  {
    hide Forest, Deliver, RemoveSubtree;
    if Survives(R[p].sup, 1) { DeliverCopes(R, h, p, 1); } else { FallsFirst(R, h, p, 1, 0); }
  }

  lemma DeliverNobody(R: Registry, h: Heights, k: nat)
    requires Forest(R, h)
    ensures Deliver(R, h, None, k) == R
  {
  }

  lemma KilledAbsent(R: Registry, h: Heights, a: AgentId)
    requires Forest(R, h) && a !in R
    ensures Killed(R, h, a) == R
  {
  }

  lemma KilledDelivers(R: Registry, h: Heights, a: AgentId)
    requires Forest(R, h) && a in R
    ensures Forest(RemoveSubtree(R, h, a), h)
    ensures Killed(R, h, a) == Deliver(RemoveSubtree(R, h, a), h, R[a].parent, Notices(R, h, a))
    ensures Forest(Killed(R, h, a), h) && |Killed(R, h, a)| < |R|
  {
    hide Forest, RemoveSubtree, Deliver, Notices;
    var gone := RemoveSubtree(R, h, a);
    RemoveForest(R, h, a);
    RemoveUpClosed(R, h, a);
    DeliverForest(gone, h, R[a].parent, Notices(R, h, a));
    SubsetSize(Killed(R, h, a).Keys, gone.Keys);
  }

  lemma BumpForest(R: Registry, h: Heights, p: AgentId, g: Supervision, s: AgentState)
    requires Forest(R, h) && p in R
    ensures Forest(R[p := R[p].(sup := g, state := s)], h) && UpClosed(R, R[p := R[p].(sup := g, state := s)])
  {
    var S := R[p := R[p].(sup := g, state := s)];
    forall a: AgentId, c: AgentId | a in S && c in S[a].children ensures ChildOk(S, h, a, c) {
      assert ChildOk(R, h, a, c);
    }
    forall c | HasParent(S, c) ensures c in S[S[c].parent.value].children { assert HasParent(R, c); }
  }

  lemma {:induction false} DeliverForest(R: Registry, h: Heights, p: Option<AgentId>, k: nat)
    requires Forest(R, h)
    ensures Forest(Deliver(R, h, p, k), h)
    ensures Deliver(R, h, p, k).Keys <= R.Keys
    decreases |R|
  {
    hide Forest, RemoveSubtree, Survives, Bump;
    if p.Some? && p.value in R {
      if Survives(R[p.value].sup, k) {
        BumpForest(R, h, p.value, Bump(R[p.value].sup, k), R[p.value].state);
      } else {
        RemoveForest(R, h, p.value);
        RemoveUpClosed(R, h, p.value);
        DeliverForest(RemoveSubtree(R, h, p.value), h, R[p.value].parent, 2 * |R[p.value].children| + 2);
      }
    }
  }

  // Notices add up. The agent copes both times,
  lemma CopesTwice(R: Registry, h: Heights, a: AgentId, j: nat, k: nat)
    requires Forest(R, h) && a in R && Survives(R[a].sup, j) && Survives(R[a].sup, j + k)
    ensures var S := R[a := R[a].(sup := Bump(R[a].sup, j))];
      Forest(S, h) && Deliver(S, h, Some(a), k) == Deliver(R, h, Some(a), j + k)
  {
    hide Forest, Deliver, Survives, Bump;
    var S := R[a := R[a].(sup := Bump(R[a].sup, j))];
    BumpForest(R, h, a, Bump(R[a].sup, j), R[a].state);
    SurvivesTwice(R[a].sup, j, k);
    DeliverCopes(R, h, a, j + k);
    DeliverCopes(S, h, a, k);
  }

  // or falls at the second,
  lemma FallsLater(R: Registry, h: Heights, a: AgentId, j: nat, k: nat)
    requires Forest(R, h) && a in R && Survives(R[a].sup, j) && !Survives(R[a].sup, j + k)
    ensures var S := R[a := R[a].(sup := Bump(R[a].sup, j))];
      Forest(S, h) && Deliver(S, h, Some(a), k) == Deliver(R, h, Some(a), j + k)
  {
    hide Forest, Deliver, Survives, Bump, RemoveSubtree;
    var S := R[a := R[a].(sup := Bump(R[a].sup, j))];
    BumpRemoved(R, h, a, Bump(R[a].sup, j), R[a].state);
    SurvivesTwice(R[a].sup, j, k);
    DeliverFalls(R, h, a, j + k);
    DeliverFalls(S, h, a, k);
  }

  // or falls at the first, and the rest go nowhere.
  lemma FallsFirst(R: Registry, h: Heights, a: AgentId, j: nat, k: nat)
    requires Forest(R, h) && a in R && !Survives(R[a].sup, j)
    ensures Deliver(R, h, Some(a), j + k) == Deliver(R, h, Some(a), j) && a !in Deliver(R, h, Some(a), j)
  {
    hide Forest, Deliver, Survives, Bump, RemoveSubtree;
    if Survives(R[a].sup, j + k) { SurvivesFewer(R[a].sup, j, k); }
    DeliverFalls(R, h, a, j);
    DeliverFalls(R, h, a, j + k);
    RemoveUpClosed(R, h, a);
    DeliverForest(RemoveSubtree(R, h, a), h, R[a].parent, 2 * |R[a].children| + 2);
  }

  lemma DeliverTwice(R: Registry, h: Heights, p: Option<AgentId>, j: nat, k: nat)
    requires Forest(R, h)
    ensures Forest(Deliver(R, h, p, j), h)
    ensures Deliver(Deliver(R, h, p, j), h, p, k) == Deliver(R, h, p, j + k)
  {
    hide Forest, Deliver, Survives, Bump;
    DeliverForest(R, h, p, j);
    if p.None? {
      DeliverNobody(R, h, j);
      DeliverNobody(R, h, k);
      DeliverNobody(R, h, j + k);
    } else if p.value !in R {
      DeliverAbsent(R, h, p.value, j);
      DeliverAbsent(R, h, p.value, k);
      DeliverAbsent(R, h, p.value, j + k);
    } else if !Survives(R[p.value].sup, j) {
      FallsFirst(R, h, p.value, j, k);
      DeliverAbsent(Deliver(R, h, p, j), h, p.value, k);
    } else {
      DeliverCopes(R, h, p.value, j);
      if Survives(R[p.value].sup, j + k) { CopesTwice(R, h, p.value, j, k); } else { FallsLater(R, h, p.value, j, k); }
    }
  }

  // What is removed does not matter.
  lemma BumpRemoved(R: Registry, h: Heights, a: AgentId, g: Supervision, s: AgentState)
    requires Forest(R, h) && a in R
    ensures var S := R[a := R[a].(sup := g, state := s)];
      Forest(S, h) && RemoveSubtree(S, h, a) == RemoveSubtree(R, h, a)
  {
    var S := R[a := R[a].(sup := g, state := s)];
    BumpForest(R, h, a, g, s);
    forall y | y in R ensures Under(S, h, a, y) <==> Under(R, h, a, y) { UnderFrame(R, S, h, a, y); }
    assert Under(R, h, a, a);
  }

  ////////////// Spawning //////////////

  const DEFAULT_MAX_RESTARTS: nat := 5

  // The id is new: not registered, and nobody's parent.
  ghost predicate Fresh(R: Registry, id: AgentId) {
    id !in R && forall x :: x in R ==> R[x].parent != Some(id)
  }

  predicate ParentFull(R: Registry, parent: Option<AgentId>) {
    parent.Some? && parent.value in R && |R[parent.value].children| >= R[parent.value].maxChildren
  }

  function Spawned(R: Registry, parent: Option<AgentId>, id: AgentId, policy: RestartPolicy, maxChildren: nat): Registry {
    if ParentFull(R, parent) then R
    else
      var S := R[id := Agent(Running, parent, [], maxChildren, Supervision(policy, 0, DEFAULT_MAX_RESTARTS))];
      if parent.Some? && parent.value in R
      then S[parent.value := S[parent.value].(children := S[parent.value].children + [id])]
      else S
  }

  // Everyone moves up one level and the new agent starts at the bottom.
  ghost function Raised(R: Registry, h: Heights, id: AgentId): Heights
    requires Forest(R, h)
  {
    (map x | x in R :: h[x] + 1)[id := 0]
  }

  lemma SpawnedForest(R: Registry, h: Heights, parent: Option<AgentId>, id: AgentId, policy: RestartPolicy, maxChildren: nat)
    requires Forest(R, h) && Fresh(R, id) && parent != Some(id)
    ensures Forest(Spawned(R, parent, id, policy, maxChildren), Raised(R, h, id))
  {
    var S, g := Spawned(R, parent, id, policy, maxChildren), Raised(R, h, id);
    forall a: AgentId, c: AgentId | a in S && c in S[a].children ensures ChildOk(S, g, a, c) {
      if a in R && c in R[a].children { assert ChildOk(R, h, a, c); }
    }
    forall a | a in S ensures a in g && Distinct(S[a].children) {
      if a in R {
        assert forall c: AgentId :: c in R[a].children ==> ChildOk(R, h, a, c);
        DistinctAppend(R[a].children, id);
      }
    }
    forall c | HasParent(S, c) ensures c in S[S[c].parent.value].children {
      if c in R { assert HasParent(R, c); }
    }
  }
}
