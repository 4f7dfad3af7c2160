// The frame allocator as a value: the free frames and the hint where to look next.
module FrameModel {
  import opened Bytes

  datatype Frames = Frames(free: set<nat>, nextFree: nat)

  predicate Within(i: nat, start: nat, count: nat) {
    start <= i < start + count
  }

  // The frames below `total` of a region.
  function Region(start: nat, count: nat, total: nat): set<nat> {
    set i: nat | i < total && Within(i, start, count)
  }

  ghost predicate IsLeast(s: set<nat>, n: nat) {
    n in s && forall m :: m in s ==> n <= m
  }

  lemma {:induction false} LeastExists(s: set<nat>)
    requires s != {}
    ensures exists n :: IsLeast(s, n)
    decreases |s|
  {
    var k :| k in s;
    if !IsLeast(s, k) {
      var j :| j in s && j < k;
      assert j in s - {k};
      LeastExists(s - {k});
      var n :| IsLeast(s - {k}, n);
      var best := if n < k then n else k;
      forall m | m in s ensures best <= m {
        if m != k { assert m in s - {k}; }
      }
      assert IsLeast(s, best);
    }
  }

  ghost function LeastOf(s: set<nat>): (n: nat)
    requires s != {}
    ensures IsLeast(s, n)
  {
    LeastExists(s);
    var n :| IsLeast(s, n);
    n
  }

  ghost function FromHint(f: Frames): set<nat> {
    set i | i in f.free && i >= f.nextFree
  }

  // The first free frame from the hint on, else the first free frame.
  ghost function Candidate(f: Frames): Option<nat> {
    if FromHint(f) != {} then Some(LeastOf(FromHint(f)))
    else if f.free != {} then Some(LeastOf(f.free))
    else None
  }

  ghost function Allocated(f: Frames): Frames {
    match Candidate(f)
    case None => f
    case Some(i) => Frames(f.free - {i}, i + 1)
  }

  function Freed(f: Frames, i: nat): Frames {
    Frames(f.free + {i}, if i < f.nextFree then i else f.nextFree)
  }

  // Nothing below the hint is free.
  ghost predicate HintLow(f: Frames) {
    forall i :: i in f.free ==> i >= f.nextFree
  }

  // As long as the hint is low, allocation returns the lowest free frame and the wrap-around scan
  // never finds one; and allocating and freeing keep it low.
  lemma LowestFirst(f: Frames, j: nat)
    requires HintLow(f)
    ensures Candidate(f) == if f.free == {} then None else Some(LeastOf(f.free))
    ensures HintLow(Allocated(f)) && HintLow(Freed(f, j))
  {
    assert FromHint(f) == f.free;
  }

  // With no assumption on the hint: a frame is refused only when none is free.
  lemma NoneOnlyWhenFull(f: Frames)
    ensures Candidate(f).None? <==> f.free == {}
    ensures Candidate(f).Some? ==> Candidate(f).value in f.free
  {
    if f.free != {} { var i :| i in f.free; assert FromHint(f) != {} || i in f.free; }
  }

  lemma AllocatedOutcome(f: Frames)
    ensures Candidate(f).None? <==> f.free == {}
    ensures Candidate(f).Some? ==> Candidate(f).value in f.free && Allocated(f).free == f.free - {Candidate(f).value}
    ensures Candidate(f).Some? ==> forall j :: j in f.free ==> var i := Candidate(f).value;
      if j >= f.nextFree then f.nextFree <= i <= j else i >= f.nextFree || i <= j
    ensures HintLow(f) ==> HintLow(Allocated(f)) && (Candidate(f).Some? ==> IsLeast(f.free, Candidate(f).value))
  {
    NoneOnlyWhenFull(f);
    if HintLow(f) { LowestFirst(f, 0); }
    assert forall j :: j in f.free && j >= f.nextFree ==> j in FromHint(f);
  }

  ////////////// Runs //////////////

  datatype FrameOp = AllocOp | FreeOp(i: nat) | RegionOp(region: set<nat>)

  // The allocator and the frames handed out and not yet given back.
  datatype Ledger = Ledger(frames: Frames, out: set<nat>)

  ghost function Step(l: Ledger, op: FrameOp): Ledger {
    match op
    case AllocOp =>
      (match Candidate(l.frames)
       case None => l
       case Some(i) => Ledger(Allocated(l.frames), l.out + {i}))
    case FreeOp(i) => Ledger(Freed(l.frames, i), l.out - {i})
    case RegionOp(region) => l.(frames := l.frames.(free := l.frames.free + region))
  }

  // Only frames that are out are given back, and no region is freed over the head of an owner.
  ghost predicate Possible(l: Ledger, ops: seq<FrameOp>)
    decreases |ops|
  {
    ops == [] ||
    (&& (ops[0].FreeOp? ==> ops[0].i in l.out)
     && (ops[0].RegionOp? ==> ops[0].region !! l.out)
     && Possible(Step(l, ops[0]), ops[1..]))
  }

  ghost function Run(l: Ledger, ops: seq<FrameOp>): Ledger
    decreases |ops|
  {
    if ops == [] then l else Run(Step(l, ops[0]), ops[1..])
  }

  // The frames freed as regions along the way.
  function Regions(ops: seq<FrameOp>): set<nat> {
    if ops == [] then {} else (if ops[0].RegionOp? then ops[0].region else {}) + Regions(ops[1..])
  }

  lemma {:induction false} NoRegions(ops: seq<FrameOp>)
    requires forall i :: 0 <= i < |ops| ==> !ops[i].RegionOp?
    ensures Regions(ops) == {}
  {
    if ops != [] { NoRegions(ops[1..]); }
  }

  // Wherever the hint is: on every run each frame is free or out but never both, and none turns up
  // that was not there at the start or freed as part of a region.
  lemma {:induction false} RunBalances(l: Ledger, ops: seq<FrameOp>)
    requires l.frames.free !! l.out && Possible(l, ops)
    ensures var u := Run(l, ops);
      u.frames.free !! u.out && u.frames.free + u.out == l.frames.free + l.out + Regions(ops)
    decreases |ops|
  {
    if ops != [] {
      NoneOnlyWhenFull(l.frames);
      RunBalances(Step(l, ops[0]), ops[1..]);
    }
  }

  // Once set-up is over and no more regions are freed, the hint stays low, so every frame handed out
  // is the lowest free one.
  lemma {:induction false} RunLowestFirst(l: Ledger, ops: seq<FrameOp>)
    requires HintLow(l.frames) && forall i :: 0 <= i < |ops| ==> !ops[i].RegionOp?
    ensures HintLow(Run(l, ops).frames)
    ensures var f := Run(l, ops).frames; Candidate(f) == if f.free == {} then None else Some(LeastOf(f.free))
    decreases |ops|
  {
    LowestFirst(l.frames, if ops != [] && ops[0].FreeOp? then ops[0].i else 0);
    if ops != [] { RunLowestFirst(Step(l, ops[0]), ops[1..]); }
  }
}
