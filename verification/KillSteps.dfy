// The registry in the middle of a kill: a is dying, its first i children are gone, it is still
// registered and still takes notices.
module KillSteps {
  import opened Bytes
  import opened Collections
  import opened SupervisionModel

  // S and R agree on everything under c.
  ghost predicate SameUnder(R: Registry, S: Registry, h: Heights, c: AgentId)
    requires Forest(R, h)
  {
    forall x :: Under(R, h, c, x) ==> x in S && S[x] == R[x]
  }

  // The notices a killed agent sends depend only on its subtree.
  lemma {:induction false} NoticesFrame(R: Registry, S: Registry, h: Heights, c: AgentId)
    requires Forest(R, h) && Forest(S, h) && c in R && SameUnder(R, S, h, c)
    ensures c in S && Notices(S, h, c) == Notices(R, h, c)
    decreases h[c], 1, 0
  {
    assert Under(R, h, c, c);
    ChildrenBelow(R, h, c);
    forall d, x | d in R[c].children && Under(R, h, d, x) ensures x in S && S[x] == R[x] {
      ChildUnder(R, h, c, d, x);
    }
    ReentriesFrame(R, S, h, R[c].sup, R[c].children, h[c]);
  }

  lemma {:induction false} ReentriesFrame(R: Registry, S: Registry, h: Heights, g: Supervision, cs: seq<AgentId>, height: nat)
    requires Forest(R, h) && Forest(S, h) && Below(R, h, cs, height)
    requires forall c :: c in cs ==> SameUnder(R, S, h, c)
    ensures Below(S, h, cs, height) && Reentries(S, h, g, cs, height) == Reentries(R, h, g, cs, height)
    decreases height, 0, |cs|
  {
    forall c | c in cs ensures c in S { assert Under(R, h, c, c); }
    if cs != [] {
      NoticesFrame(R, S, h, cs[0]);
      var k := Notices(R, h, cs[0]);
      if Survives(g, k) { ReentriesFrame(R, S, h, Bump(g, k), cs[1..], height); }
    }
  }

  ghost predicate UnderAny(R: Registry, h: Heights, cs: seq<AgentId>, x: AgentId)
    requires Forest(R, h)
  {
    exists c :: c in cs && Under(R, h, c, x)
  }

  // The dying agent itself.
  function Dying(g: Agent, i: nat, sup: Supervision): Agent
    requires i <= |g.children|
  {
    g.(state := Dead, children := g.children[i..], sup := sup)
  }

  ghost function Mid(R: Registry, h: Heights, a: AgentId, i: nat, sup: Supervision): Registry
    requires Forest(R, h) && a in R && i <= |R[a].children|
  {
    map x | x in R && !UnderAny(R, h, R[a].children[..i], x) :: if x == a then Dying(R[a], i, sup) else R[x]
  }

  lemma NotUnderChildren(R: Registry, h: Heights, a: AgentId, i: nat)
    requires Forest(R, h) && a in R && i <= |R[a].children|
    ensures !UnderAny(R, h, R[a].children[..i], a)
  {
    forall c | c in R[a].children[..i] ensures !Under(R, h, c, a) {
      if Under(R, h, c, a) { ChildUnder(R, h, a, c, a); }
    }
  }

  lemma MidUpClosed(R: Registry, h: Heights, a: AgentId, i: nat, sup: Supervision)
    requires Forest(R, h) && a in R && i <= |R[a].children|
    ensures UpClosed(R, Mid(R, h, a, i, sup)) && a in Mid(R, h, a, i, sup)
  {
    NotUnderChildren(R, h, a, i);
    var S, gone := Mid(R, h, a, i, sup), R[a].children[..i];
    forall y | y in S && HasParent(R, y) ensures R[y].parent.value in S {
      forall c | c in gone ensures !Under(R, h, c, R[y].parent.value) { assert !Under(R, h, c, y); }
    }
  }

  lemma MidForest(R: Registry, h: Heights, a: AgentId, i: nat, sup: Supervision)
    requires Forest(R, h) && a in R && i <= |R[a].children|
    ensures Forest(Mid(R, h, a, i, sup), h)
  {
    MidUpClosed(R, h, a, i, sup);
    var S, cs := Mid(R, h, a, i, sup), R[a].children;
    forall x: AgentId, c: AgentId | x in S && c in S[x].children ensures ChildOk(S, h, x, c) {
      assert ChildOk(R, h, x, c);
      MidChild(R, h, a, i, x, c);
    }
    forall c | HasParent(S, c) ensures c in S[S[c].parent.value].children {
      assert HasParent(R, c) && c in R[R[c].parent.value].children;
      if R[c].parent.value == a {
        assert c !in cs[..i] by { if c in cs[..i] { assert Under(R, h, c, c); } }
        assert cs == cs[..i] + cs[i..];
      }
    }
  }

  // Whoever is still listed is still registered.
  lemma MidChild(R: Registry, h: Heights, a: AgentId, i: nat, x: AgentId, c: AgentId)
    requires Forest(R, h) && a in R && i <= |R[a].children| && x in R && c in R[x].children
    requires !UnderAny(R, h, R[a].children[..i], x) && (x == a ==> c in R[a].children[i..])
    ensures !UnderAny(R, h, R[a].children[..i], c)
  {
    assert ChildOk(R, h, x, c);
    forall d | d in R[a].children[..i] ensures !Under(R, h, d, c) {
      assert ChildOk(R, h, a, d);
      assert !Under(R, h, d, x);
      if x == a { SplitDistinct(R[a].children, i, d, c); }
    }
  }

  lemma SplitDistinct(cs: seq<AgentId>, i: nat, d: AgentId, c: AgentId)
    requires Distinct(cs) && i <= |cs| && d in cs[..i] && c in cs[i..]
    ensures d != c
  {
    var k :| 0 <= k < i && cs[..i][k] == d;
    var j :| 0 <= j < |cs| - i && cs[i..][j] == c;
    assert cs[k] == d && cs[i + j] == c;
  }

  // The next child's subtree is untouched so far.
  lemma MidNotices(R: Registry, h: Heights, a: AgentId, i: nat, sup: Supervision)
    requires Forest(R, h) && a in R && i < |R[a].children|
    ensures var S, c := Mid(R, h, a, i, sup), R[a].children[i];
      Forest(S, h) && c in S && S[c].parent == Some(a) && c in R && Notices(S, h, c) == Notices(R, h, c)
  {
    MidForest(R, h, a, i, sup);
    var S, cs := Mid(R, h, a, i, sup), R[a].children;
    var c := cs[i];
    assert ChildOk(R, h, a, c);
    forall x | Under(R, h, c, x) ensures x in S && S[x] == R[x] {
      ChildUnder(R, h, a, c, x);
      if UnderAny(R, h, cs[..i], x) {
        var d :| d in cs[..i] && Under(R, h, d, x);
        SiblingsDisjoint(R, h, a, c, d, x);
      }
    }
    assert Under(R, h, c, c);
    NoticesFrame(R, S, h, c);
  }

  // One child later.
  lemma MidNext(R: Registry, h: Heights, a: AgentId, i: nat, sup: Supervision)
    requires Forest(R, h) && a in R && i < |R[a].children|
    ensures var S, c := Mid(R, h, a, i, sup), R[a].children[i];
      Forest(S, h) && c in S && RemoveSubtree(S, h, c) == Mid(R, h, a, i + 1, sup)
  {
    MidNotices(R, h, a, i, sup);
    MidUpClosed(R, h, a, i, sup);
    hide Forest, Mid, UpClosed, Notices;
    MidRemoveNext(R, h, a, i, sup, Mid(R, h, a, i, sup), R[a].children[i]);
  }

  lemma MidRemoveNext(R: Registry, h: Heights, a: AgentId, i: nat, sup: Supervision, S: Registry, c: AgentId)
    requires Forest(R, h) && a in R && i < |R[a].children| && c == R[a].children[i]
    requires Forest(S, h) && S == Mid(R, h, a, i, sup) && UpClosed(R, S) && c in S && S[c].parent == Some(a)
    ensures RemoveSubtree(S, h, c) == Mid(R, h, a, i + 1, sup)
  {
    hide Forest, Mid, RemoveSubtree;
    var T := Mid(R, h, a, i + 1, sup);
    forall x ensures RemovedAt(S, h, c, T, x) {
      MidRemoveNextAt(R, h, a, i, sup, S, c, x);
    }
    RemovedEverywhere(S, h, c, T);
  }

  lemma MidRemoveNextAt(R: Registry, h: Heights, a: AgentId, i: nat, sup: Supervision, S: Registry, c: AgentId, x: AgentId)
    requires Forest(R, h) && a in R && i < |R[a].children| && c == R[a].children[i]
    requires Forest(S, h) && S == Mid(R, h, a, i, sup) && UpClosed(R, S) && c in S && S[c].parent == Some(a)
    ensures RemovedAt(S, h, c, Mid(R, h, a, i + 1, sup), x)
  {
    hide Forest, Under;
    UnderAnyNext(R, h, R[a].children, i, x);
    if x in S { UnderFrame(R, S, h, c, x); }
    if x == a { FilterNext(R, h, a, i); }
  }

  lemma FilterNext(R: Registry, h: Heights, a: AgentId, i: nat)
    requires Forest(R, h) && a in R && i < |R[a].children|
    ensures Filter(R[a].children[i..], R[a].children[i]) == R[a].children[i + 1..]
  {
    var cs := R[a].children;
    assert Distinct(cs[i..]);
    FilterDistinct(cs[i..], cs[i]);
    assert cs[i..][1..] == cs[i + 1..];
  }

  lemma UnderAnyNext(R: Registry, h: Heights, cs: seq<AgentId>, i: nat, x: AgentId)
    requires Forest(R, h) && i < |cs|
    ensures UnderAny(R, h, cs[..i + 1], x) <==> UnderAny(R, h, cs[..i], x) || Under(R, h, cs[i], x)
  {
    hide Forest;
    assert cs[..i + 1] == cs[..i] + [cs[i]];
    if Under(R, h, cs[i], x) { assert cs[i] in cs[..i + 1]; }
  }

  // Whenever the dying agent goes, what remains is the registry without its subtree.
  lemma MidRemove(R: Registry, h: Heights, a: AgentId, i: nat, sup: Supervision)
    requires Forest(R, h) && a in R && i <= |R[a].children|
    ensures var S := Mid(R, h, a, i, sup);
      Forest(S, h) && a in S && S[a] == Dying(R[a], i, sup) && RemoveSubtree(S, h, a) == RemoveSubtree(R, h, a)
  {
    MidForest(R, h, a, i, sup);
    MidUpClosed(R, h, a, i, sup);
    var S := Mid(R, h, a, i, sup);
    var T := RemoveSubtree(R, h, a);
    assert S[a] == Dying(R[a], i, sup);
    forall x ensures RemovedAt(S, h, a, T, x) { MidRemoveAt(R, h, a, i, sup, S, x); }
    hide Forest, Mid, RemoveSubtree, RemovedAt;
    RemovedEverywhere(S, h, a, T);
  }

  lemma MidRemoveAt(R: Registry, h: Heights, a: AgentId, i: nat, sup: Supervision, S: Registry, x: AgentId)
    requires Forest(R, h) && a in R && i <= |R[a].children|
    requires Forest(S, h) && S == Mid(R, h, a, i, sup) && UpClosed(R, S) && a in S
    ensures RemovedAt(S, h, a, RemoveSubtree(R, h, a), x)
  {
    hide Forest;
    assert Under(R, h, a, a);
    if x in S {
      UnderFrame(R, S, h, a, x);
    } else if x in R {
      var c :| c in R[a].children[..i] && Under(R, h, c, x);
      ChildUnder(R, h, a, c, x);
    }
  }

  // Striking an agent from its parent's list and unregistering it.
  function Unregister(S: Registry, p: Option<AgentId>, a: AgentId): Registry {
    (if p.Some? && p.value in S then S[p.value := S[p.value].(children := Filter(S[p.value].children, a))] else S) - {a}
  }

  lemma UnregisterLeaf(S: Registry, h: Heights, a: AgentId)
    requires Forest(S, h) && a in S && S[a].children == []
    ensures RemoveSubtree(S, h, a) == Unregister(S, S[a].parent, a)
  {
    forall x | x in S ensures Under(S, h, a, x) <==> x == a { LeafUnder(S, h, a, x); }
    if HasParent(S, a) { ParentHigher(S, h, a); }
  }

  lemma {:induction false} LeafUnder(S: Registry, h: Heights, a: AgentId, x: AgentId)
    requires Forest(S, h) && a in S && S[a].children == [] && x in S
    ensures Under(S, h, a, x) <==> x == a
    decreases Above(S, h, x)
  {
    if HasParent(S, x) {
      ParentHigher(S, h, x);
      LeafUnder(S, h, a, S[x].parent.value);
    }
  }

  // With all children gone, unregistering a removes its subtree.
  lemma MidDone(R: Registry, h: Heights, a: AgentId, sup: Supervision)
    requires Forest(R, h) && a in R
    ensures Unregister(Mid(R, h, a, |R[a].children|, sup), R[a].parent, a) == RemoveSubtree(R, h, a)
  {
    MidRemove(R, h, a, |R[a].children|, sup);
    UnregisterLeaf(Mid(R, h, a, |R[a].children|, sup), h, a);
  }

  lemma MidBump(R: Registry, h: Heights, a: AgentId, i: nat, sup: Supervision, g: Supervision)
    requires Forest(R, h) && a in R && i <= |R[a].children|
    ensures a in Mid(R, h, a, i, sup)
    ensures Mid(R, h, a, i, sup)[a := Mid(R, h, a, i, sup)[a].(sup := g)] == Mid(R, h, a, i, g)
  {
    NotUnderChildren(R, h, a, i);
  }

  lemma MidStart(R: Registry, h: Heights, a: AgentId)
    requires Forest(R, h) && a in R
    ensures R[a := R[a].(state := Dead)] == Mid(R, h, a, 0, R[a].sup)
  {
    assert R[a].children[0..] == R[a].children;
    assert forall x :: !UnderAny(R, h, R[a].children[..0], x);
  }

  // Killing the next child: the dying agent either copes, or falls from inside its own kill.
  lemma KillNextChild(R: Registry, h: Heights, a: AgentId, i: nat, sup: Supervision)
    requires Forest(R, h) && a in R && i < |R[a].children|
    ensures var n, c := |R[a].children|, R[a].children[i];
      && c in R && Forest(Mid(R, h, a, i, sup), h) && Forest(RemoveSubtree(R, h, a), h)
      && Killed(Mid(R, h, a, i, sup), h, c) ==
        if Survives(sup, Notices(R, h, c)) then Mid(R, h, a, i + 1, Bump(sup, Notices(R, h, c)))
        else Deliver(RemoveSubtree(R, h, a), h, R[a].parent, 2 * (n - i))
  {
    hide Forest, Mid, RemoveSubtree, Survives, Bump, Notices;
    var c := R[a].children[i];
    MidNext(R, h, a, i, sup);
    MidNotices(R, h, a, i, sup);
    MidRemove(R, h, a, i + 1, sup);
    RemoveForest(R, h, a);
    MidBump(R, h, a, i + 1, sup, Bump(sup, Notices(R, h, c)));
  }

  // Nothing of a's subtree comes back.
  lemma GoneForGood(R: Registry, h: Heights, a: AgentId, p: Option<AgentId>, k: nat)
    requires Forest(R, h) && a in R
    ensures Forest(RemoveSubtree(R, h, a), h)
    ensures var S := Deliver(RemoveSubtree(R, h, a), h, p, k);
      Forest(S, h) && S.Keys <= R.Keys && a !in S && forall c :: c in R[a].children ==> c !in S
  {
    RemoveForest(R, h, a);
    DeliverForest(RemoveSubtree(R, h, a), h, p, k);
    assert Under(R, h, a, a);
    forall c | c in R[a].children ensures c !in RemoveSubtree(R, h, a) {
      assert ChildOk(R, h, a, c) && Under(R, h, c, c);
      ChildUnder(R, h, a, c, c);
    }
  }

  // Taking a off the list it is not on changes nothing.
  lemma UnregisterGone(S: Registry, h: Heights, p: Option<AgentId>, a: AgentId)
    requires Forest(S, h) && a !in S
    ensures Unregister(S, p, a) == S
  {
    if p.Some? && p.value in S {
      assert forall c: AgentId :: c in S[p.value].children ==> ChildOk(S, h, p.value, c);
      FilterDistinct(S[p.value].children, a);
    }
  }

  lemma DeliverNothing(R: Registry, h: Heights, p: Option<AgentId>)
    requires Forest(R, h)
    ensures Deliver(R, h, p, 0) == R
  {
  }

  // The end of a kill, whether or not the agent fell from inside it.
  lemma FinishKill(R: Registry, h: Heights, a: AgentId, S: Registry, sup: Supervision, total: nat)
    requires Forest(R, h) && a in R && Forest(RemoveSubtree(R, h, a), h)
    requires S == if total == 0 then Mid(R, h, a, |R[a].children|, sup)
                  else Deliver(RemoveSubtree(R, h, a), h, R[a].parent, 2 * total)
    ensures Unregister(S, R[a].parent, a) == Deliver(RemoveSubtree(R, h, a), h, R[a].parent, 2 * total)
    ensures Forest(Unregister(S, R[a].parent, a), h) && |Unregister(S, R[a].parent, a)| < |R|
  {
    hide Forest, RemoveSubtree, Mid, Unregister;
    var gone := RemoveSubtree(R, h, a);
    GoneForGood(R, h, a, R[a].parent, 2 * total);
    RemoveUpClosed(R, h, a);
    DeliverForest(gone, h, R[a].parent, 2 * total);
    SubsetSize(Deliver(gone, h, R[a].parent, 2 * total).Keys, gone.Keys);
    if total == 0 {
      MidDone(R, h, a, sup);
      DeliverNothing(gone, h, R[a].parent);
    } else {
      UnregisterGone(S, h, R[a].parent, a);
    }
  }

  lemma MidSize(R: Registry, h: Heights, a: AgentId, i: nat, sup: Supervision)
    requires Forest(R, h) && a in R && i <= |R[a].children|
    ensures Forest(Mid(R, h, a, i, sup), h) && Mid(R, h, a, i, sup).Keys <= R.Keys
  {
    MidForest(R, h, a, i, sup);
  }

  ////////////// The loop over the children, as one predicate //////////////

  ghost function TotalReentries(R: Registry, h: Heights, a: AgentId): nat
    requires Forest(R, h) && a in R
  {
    ChildrenBelow(R, h, a);
    Reentries(R, h, R[a].sup, R[a].children, h[a])
  }

  // After i children, the registry is S: either a is still dying, or it fell from inside.
  ghost predicate Dies(R: Registry, h: Heights, a: AgentId, i: nat, S: Registry, sup: Supervision, fallen: bool) {
    && Forest(R, h) && a in R && i <= |R[a].children|
    && var total := TotalReentries(R, h, a);
       if fallen then
         RemoveForest(R, h, a);
         total > 0 && S == Deliver(RemoveSubtree(R, h, a), h, R[a].parent, 2 * total)
       else
         && S == Mid(R, h, a, i, sup)
         && Below(R, h, R[a].children[i..], h[a])
         && total == Reentries(R, h, sup, R[a].children[i..], h[a])
  }

  lemma DiesStart(R: Registry, h: Heights, a: AgentId)
    requires Forest(R, h) && a in R
    ensures Dies(R, h, a, 0, R[a := R[a].(state := Dead)], R[a].sup, false)
    ensures a in h && |R[a := R[a].(state := Dead)]| == |R|
  {
    MidStart(R, h, a);
    MapInsertSize(R, a, R[a].(state := Dead));
    ChildrenBelow(R, h, a);
    assert R[a].children[0..] == R[a].children;
  }

  lemma DiesForest(R: Registry, h: Heights, a: AgentId, i: nat, S: Registry, sup: Supervision, fallen: bool)
    requires Dies(R, h, a, i, S, sup, fallen)
    ensures Forest(S, h) && |S| <= |R|
  {
    hide Forest, Mid, RemoveSubtree, Deliver;
    if fallen {
      GoneForGood(R, h, a, R[a].parent, 2 * TotalReentries(R, h, a));
    } else {
      MidSize(R, h, a, i, sup);
    }
    SubsetSize(S.Keys, R.Keys);
  }

  lemma DiesNext(R: Registry, h: Heights, a: AgentId, i: nat, S: Registry, sup: Supervision, fallen: bool)
    returns (sup': Supervision, fallen': bool)
    requires Dies(R, h, a, i, S, sup, fallen) && i < |R[a].children|
    ensures R[a].children[i] in h && h[R[a].children[i]] < h[a]
    ensures Forest(S, h) && Dies(R, h, a, i + 1, Killed(S, h, R[a].children[i]), sup', fallen')
  {
    DiesForest(R, h, a, i, S, sup, fallen);
    ChildrenBelow(R, h, a);
    sup', fallen' := sup, fallen;
    if fallen {
      FallenNext(R, h, a, i, S, sup);
    } else {
      ReentriesNext(R, h, a, i, sup);
      var k := Notices(R, h, R[a].children[i]);
      hide Dies;
      if Survives(sup, k) { sup' := Bump(sup, k); } else { fallen' := true; }
    }
  }

  lemma FallenNext(R: Registry, h: Heights, a: AgentId, i: nat, S: Registry, sup: Supervision)
    requires Dies(R, h, a, i, S, sup, true) && i < |R[a].children|
    ensures Forest(S, h) && Dies(R, h, a, i + 1, Killed(S, h, R[a].children[i]), sup, true)
  {
    hide Forest, Mid, RemoveSubtree, Deliver, Killed;
    GoneForGood(R, h, a, R[a].parent, 2 * TotalReentries(R, h, a));
    KilledAbsent(S, h, R[a].children[i]);
  }

  lemma ReentriesNext(R: Registry, h: Heights, a: AgentId, i: nat, sup: Supervision)
    requires Forest(R, h) && a in R && i < |R[a].children| && Below(R, h, R[a].children[i..], h[a])
    requires Dies(R, h, a, i, Mid(R, h, a, i, sup), sup, false)
    ensures var c := R[a].children[i]; var S := Mid(R, h, a, i, sup);
      && c in R && Forest(S, h)
      && (Survives(sup, Notices(R, h, c)) ==>
            Dies(R, h, a, i + 1, Killed(S, h, c), Bump(sup, Notices(R, h, c)), false))
      && (!Survives(sup, Notices(R, h, c)) ==> Dies(R, h, a, i + 1, Killed(S, h, c), sup, true))
  {
    hide Forest, Mid, RemoveSubtree, Survives, Bump, Deliver, Notices, Killed;
    var cs := R[a].children;
    KillNextChild(R, h, a, i, sup);
    assert cs[i..][1..] == cs[i + 1..] && cs[i..][0] == cs[i];
  }

  lemma DiesEnd(R: Registry, h: Heights, a: AgentId, S: Registry, sup: Supervision, fallen: bool)
    requires Forest(R, h) && a in R && Dies(R, h, a, |R[a].children|, S, sup, fallen)
    ensures Forest(Unregister(S, R[a].parent, a), h) && |Unregister(S, R[a].parent, a)| < |R|
    ensures Deliver(Unregister(S, R[a].parent, a), h, R[a].parent, 1) == Killed(R, h, a)
    ensures Forest(Killed(R, h, a), h)
  {
    hide Forest, Mid, RemoveSubtree, Deliver, Killed, Unregister;
    KilledDelivers(R, h, a);
    var total := TotalReentries(R, h, a);
    FinishKill(R, h, a, S, sup, total);
    DeliverTwice(RemoveSubtree(R, h, a), h, R[a].parent, 2 * total, 1);
  }
}
