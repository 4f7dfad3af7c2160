// Whole runs of the block cache: it refines a plain block map, and it is exactly LRU.
module CacheRuns {
  import opened Bytes
  import opened Collections
  import opened CacheModel

  // FaultOp is the environment's step: from now on transfers of these sectors fail.
  datatype Op = ReadOp(n: nat) | WriteOp(n: nat, data: Block) | FlushOp | FaultOp(failing: set<nat>)

  ghost function Step(s: Store, op: Op): Store {
    match op
    case ReadOp(n) => Read(s, n)
    case WriteOp(n, data) => Write(s, n, data)
    case FlushOp => Flush(s)
    case FaultOp(failing) => s.(dev := s.dev.(failing := failing))
  }

  ghost function Run(s: Store, ops: seq<Op>): Store {
    if ops == [] then s else Step(Run(s, ops[..|ops| - 1]), ops[|ops| - 1])
  }

  // The operation reaches the block map or the device: every write, and a read that is answered.
  predicate Succeeds(s: Store, op: Op) {
    op.WriteOp? || (op.ReadOp? && ReadResult(s, op.n).Ok?)
  }

  ghost predicate Loses(s: Store, op: Op) {
    Succeeds(s, op) && MissLoses(s, op.n)
  }

  ghost predicate NothingLost(s: Store, ops: seq<Op>) {
    forall i :: 0 <= i < |ops| ==> !Loses(Run(s, ops[..i]), ops[i])
  }

  // What a plain block map would hold at n: the last write, or what was there before the run.
  function LastWritten(s: Store, ops: seq<Op>, n: nat): Option<Block> {
    if ops == [] then At(s, n)
    else
      var op := ops[|ops| - 1];
      if op.WriteOp? && op.n == n then Some(op.data) else LastWritten(s, ops[..|ops| - 1], n)
  }

  lemma StepInv(s: Store, op: Op)
    requires Inv(s)
    ensures Inv(Step(s, op))
    ensures op.WriteOp? ==> (Updates(s, Step(s, op), op.n, op.data) <==> !Loses(s, op))
    ensures !op.WriteOp? ==> (SameBlocks(s, Step(s, op)) <==> !Loses(s, op))
  {
    match op
    case ReadOp(n) => ReadStep(s, n);
    case WriteOp(n, data) => WriteStep(s, n, data);
    case FlushOp => FlushStep(s);
    case FaultOp(failing) =>
      assert forall n: nat :: At(Step(s, op), n) == At(s, n);
  }

  lemma {:induction false} RunInv(s: Store, ops: seq<Op>)
    requires Inv(s)
    ensures Inv(Run(s, ops))
  {
    if ops != [] {
      RunInv(s, ops[..|ops| - 1]);
      StepInv(Run(s, ops[..|ops| - 1]), ops[|ops| - 1]);
    }
  }

  // Refinement: whatever the interleaving of reads, writes, flushes, evictions and device faults,
  // as long as no eviction throws a write away the cache and the device are one plain block map.
  lemma {:induction false} RunRefinesBlockMap(s: Store, ops: seq<Op>)
    requires Inv(s) && NothingLost(s, ops)
    ensures Inv(Run(s, ops))
    ensures forall n: nat :: At(Run(s, ops), n) == LastWritten(s, ops, n)
  {
    if ops != [] {
      var rest, op := ops[..|ops| - 1], ops[|ops| - 1];
      assert NothingLost(s, rest) by {
        forall i | 0 <= i < |rest| ensures !Loses(Run(s, rest[..i]), rest[i]) {
          assert rest[..i] == ops[..i];
        }
      }
      RunRefinesBlockMap(s, rest);
      assert !Loses(Run(s, rest), op);
      StepInv(Run(s, rest), op);
    }
  }

  // Each block holds the last write to it, or what it held before.
  ghost predicate Matches(s: Store, ops: seq<Op>) {
    forall n: nat :: At(Run(s, ops), n) == LastWritten(s, ops, n)
  }

  // And only as long: a lost write is the one way in which a run departs from a plain block map.
  lemma RefinesIff(s: Store, ops: seq<Op>)
    requires Inv(s)
    ensures NothingLost(s, ops) <==> forall i :: 0 <= i <= |ops| ==> Matches(s, ops[..i])
  {
    if NothingLost(s, ops) {
      forall i | 0 <= i <= |ops| ensures Matches(s, ops[..i]) {
        assert NothingLost(s, ops[..i]) by {
          forall j | 0 <= j < i ensures !Loses(Run(s, ops[..i][..j]), ops[..i][j]) { assert ops[..i][..j] == ops[..j]; }
        }
        RunRefinesBlockMap(s, ops[..i]);
      }
    }
    if forall i :: 0 <= i <= |ops| ==> Matches(s, ops[..i]) {
      forall i | 0 <= i < |ops| ensures !Loses(Run(s, ops[..i]), ops[i]) {
        assert Matches(s, ops[..i]) && Matches(s, ops[..i + 1]);
        StillMatches(s, ops, i);
      }
    }
  }

  lemma StillMatches(s: Store, ops: seq<Op>, i: nat)
    requires Inv(s) && i < |ops| && Matches(s, ops[..i]) && Matches(s, ops[..i + 1])
    ensures !Loses(Run(s, ops[..i]), ops[i])
  {
    hide Inv, Loses, Step, At;
    var now, next := ops[..i], ops[..i + 1];
    assert next[..|next| - 1] == now && next[|next| - 1] == ops[i];
    RunInv(s, now);
    StepInv(Run(s, now), ops[i]);
    assert Run(s, next) == Step(Run(s, now), ops[i]);
    forall n: nat ensures At(Run(s, next), n) ==
      if ops[i].WriteOp? && ops[i].n == n then Some(ops[i].data) else At(Run(s, now), n)
    {
      assert At(Run(s, next), n) == LastWritten(s, next, n) && At(Run(s, now), n) == LastWritten(s, now, n);
    }
    hide Run;
  }

  // A read that is answered after such a run returns the last write; one that is answered "no"
  // is of a block the device refuses.
  lemma ReadAfterRun(s: Store, ops: seq<Op>, n: nat)
    requires Inv(s) && NothingLost(s, ops)
    ensures match ReadResult(Run(s, ops), n)
            case Ok(data) => LastWritten(s, ops, n) == Some(data)
            case Err => !Run(s, ops).dev.Accepts(n)
  {
    RunRefinesBlockMap(s, ops);
    ReadStep(Run(s, ops), n);
  }

  lemma {:induction false} RunMore(s: Store, a: seq<Op>, b: seq<Op>)
    ensures Run(Run(s, a), b) == Run(s, a + b)
  {
    hide Step;
    if b == [] {
      assert a + b == a;
    } else {
      assert (a + b)[..|a + b| - 1] == a + b[..|b| - 1];
      RunMore(s, a, b[..|b| - 1]);
    }
  }

  ////////////// Sectors that work //////////////

  // Only blocks the device takes are cached. That is so for an empty cache, whatever the disk.
  ghost predicate Steady(s: Store) {
    forall n :: n in s.cache ==> s.dev.Accepts(n)
  }

  predicate Fits(s: Store, op: Op) {
    !op.FaultOp? && (op.WriteOp? ==> s.dev.Accepts(op.n))
  }

  // The same device but for what its blocks hold.
  predicate SameDevice(a: Device, b: Device) {
    a.initialized == b.initialized && a.failing == b.failing && |a.blocks| == |b.blocks|
  }

  lemma StepDevice(s: Store, op: Op)
    ensures |Step(s, op).dev.blocks| == |s.dev.blocks|
    ensures !op.FaultOp? ==> SameDevice(Step(s, op).dev, s.dev)
  {
  }

  lemma {:induction false} RunSameDevice(s: Store, ops: seq<Op>)
    requires forall i :: 0 <= i < |ops| ==> !ops[i].FaultOp?
    ensures SameDevice(Run(s, ops).dev, s.dev)
  {
    hide Step;
    if ops != [] {
      RunSameDevice(s, ops[..|ops| - 1]);
      StepDevice(Run(s, ops[..|ops| - 1]), ops[|ops| - 1]);
    }
  }

  lemma SteadyKeepsWrites(s: Store, n: nat)
    requires Inv(s) && Steady(s)
    ensures !MissLoses(s, n) && FlushSucceeds(s)
    ensures ReadResult(s, n).Ok? <==> s.dev.Accepts(n)
    ensures RoomFor(s, n) <= s.cache.Keys
  {
  }

  lemma SteadyStep(s: Store, op: Op)
    requires Inv(s) && Steady(s) && Fits(s, op)
    ensures !Loses(s, op) && Steady(Step(s, op)) && SameDevice(Step(s, op).dev, s.dev)
  {
    StepDevice(s, op);
    match op
    case ReadOp(n) => SteadyKeepsWrites(s, n); ReadStep(s, n);
    case WriteOp(n, data) => SteadyKeepsWrites(s, n); WriteStep(s, n, data);
    case FlushOp => FlushStep(s);
  }

  // As long as only sectors that work are written, nothing is ever lost.
  lemma {:induction false} SteadyRun(s: Store, ops: seq<Op>)
    requires Inv(s) && Steady(s) && forall i :: 0 <= i < |ops| ==> Fits(s, ops[i])
    ensures NothingLost(s, ops) && Steady(Run(s, ops)) && SameDevice(Run(s, ops).dev, s.dev)
  {
    if ops != [] {
      var rest, op := ops[..|ops| - 1], ops[|ops| - 1];
      SteadyRun(s, rest);
      RunInv(s, rest);
      SteadyStep(Run(s, rest), op);
      forall i | 0 <= i < |ops| ensures !Loses(Run(s, ops[..i]), ops[i]) {
        if i < |rest| { assert ops[..i] == rest[..i]; } else { assert ops[..i] == rest; }
      }
    }
  }

  // Write-back caching is invisible: after any run that writes only sectors that work, flushing
  // leaves on the bare device exactly what a plain block map would hold.
  lemma FlushedDeviceIsBlockMap(s: Store, ops: seq<Op>)
    requires Inv(s) && Steady(s) && forall i :: 0 <= i < |ops| ==> Fits(s, ops[i])
    ensures forall n: nat :: At(Store(map[], 0, Flush(Run(s, ops)).dev), n) == LastWritten(s, ops, n)
  {
    SteadyRun(s, ops);
    RunRefinesBlockMap(s, ops);
    SteadyKeepsWrites(Run(s, ops), 0);
    FlushStep(Run(s, ops));
  }

  // What the blocks read as, with zeros for those that fail.
  ghost function Contents(s: Store): (c: seq<Block>)
    ensures |c| == |s.dev.blocks|
  {
    seq(|s.dev.blocks|, n requires 0 <= n < |s.dev.blocks| => if s.dev.Accepts(n) then At(s, n).value else Zeros(BLOCK_SIZE))
  }

  lemma SameContents(s: Store, t: Store)
    requires SameDevice(s.dev, t.dev) && SameBlocks(s, t)
    ensures Contents(t) == Contents(s)
  {
    hide Zeros;
  }

  lemma UpdatedContents(s: Store, t: Store, n: nat, data: Block)
    requires SameDevice(s.dev, t.dev) && Updates(s, t, n, data) && s.dev.Accepts(n)
    ensures Contents(t) == Contents(s)[n := data]
  {
    hide Zeros;
  }

  lemma ReadSteady(s: Store, n: nat)
    requires Inv(s) && Steady(s)
    ensures Inv(Read(s, n)) && Steady(Read(s, n)) && Contents(Read(s, n)) == Contents(s)
    ensures SameDevice(Read(s, n).dev, s.dev)
    ensures ReadResult(s, n) == if s.dev.Accepts(n) then Ok(Contents(s)[n]) else Err
  {
    hide Inv, Read, Steady, SameBlocks, MissLoses, Zeros;
    SteadyStep(s, ReadOp(n));
    ReadStep(s, n);
    SteadyKeepsWrites(s, n);
    SameContents(s, Read(s, n));
  }

  lemma WriteSteady(s: Store, n: nat, data: Block)
    requires Inv(s) && Steady(s) && s.dev.Accepts(n)
    ensures Inv(Write(s, n, data)) && Steady(Write(s, n, data)) && Contents(Write(s, n, data)) == Contents(s)[n := data]
    ensures SameDevice(Write(s, n, data).dev, s.dev)
  {
    hide Inv, Write, Steady, Updates, MissLoses, Contents;
    SteadyStep(s, WriteOp(n, data));
    WriteStep(s, n, data);
    UpdatedContents(s, Write(s, n, data), n, data);
  }

  lemma FlushSteady(s: Store)
    requires Inv(s) && Steady(s)
    ensures Inv(Flush(s)) && FlushSucceeds(s) && Steady(Flush(s)) && Contents(Flush(s)) == Contents(s)
    ensures Contents(Store(map[], 0, Flush(s).dev)) == Contents(s) && SameDevice(Flush(s).dev, s.dev)
  {
    hide Inv, Flush, Steady, Contents, FlushSucceeds, MissLoses;
    SteadyStep(s, FlushOp);
    SteadyKeepsWrites(s, 0);
    FlushStep(s);
    SameContents(s, Flush(s));
    SameContents(s, Store(map[], 0, Flush(s).dev));
  }

  ////////////// Least recently used //////////////

  // The block numbers of the successful accesses, in order.
  ghost function Accesses(s: Store, ops: seq<Op>): seq<nat> {
    if ops == [] then []
    else
      var rest, op := ops[..|ops| - 1], ops[|ops| - 1];
      Accesses(s, rest) + if Succeeds(Run(s, rest), op) then [op.n] else []
  }

  // The distinct blocks accessed since n was last accessed.
  function Since(acc: seq<nat>, n: nat): set<nat>
    requires n in acc
  {
    var rest, x := acc[..|acc| - 1], acc[|acc| - 1];
    if x == n then {} else assert acc == rest + [x]; Since(rest, n) + {x}
  }

  lemma {:induction false} SinceSelf(acc: seq<nat>, n: nat)
    requires n in acc
    ensures n !in Since(acc, n) && forall x :: x in Since(acc, n) ==> x in acc
  {
    var rest, x := acc[..|acc| - 1], acc[|acc| - 1];
    assert acc == rest + [x];
    if x != n { SinceSelf(rest, n); }
  }

  // "Accessed more recently than" is a strict total order on the accessed blocks.
  lemma {:induction false} SinceTotal(acc: seq<nat>, m: nat, n: nat)
    requires m in acc && n in acc && m != n
    ensures n in Since(acc, m) <==> m !in Since(acc, n)
    ensures n in Since(acc, m) ==> Since(acc, n) <= Since(acc, m)
  {
    var rest, x := acc[..|acc| - 1], acc[|acc| - 1];
    assert acc == rest + [x];
    if x == n {
      SinceSelf(acc, n);
    } else if x != m {
      SinceTotal(rest, m, n);
    }
  }

  // The stamps of the cached blocks are in order of last access, and a block is cached just when
  // fewer than CACHE_SIZE others were accessed since.
  ghost predicate LruInv(cache: map<nat, CachedBlock>, acc: seq<nat>) {
    && (forall n: nat :: n in cache <==> n in acc && |Since(acc, n)| < 256)
    && (forall m: nat, n: nat :: m in cache && n in cache && n in Since(acc, m) ==> Stamp(cache, m) < Stamp(cache, n))
  }

  lemma SinceCached(cache: map<nat, CachedBlock>, acc: seq<nat>, n: nat)
    requires LruInv(cache, acc) && n in cache
    ensures Since(acc, n) <= cache.Keys - {n}
    ensures |Since(acc, n)| <= |cache| - 1
  {
    SinceSelf(acc, n);
    forall x | x in Since(acc, n) ensures x in cache {
      SinceTotal(acc, n, x);
      SubsetSize(Since(acc, x), Since(acc, n));
    }
    SubsetSize(Since(acc, n), cache.Keys - {n});
    assert |cache.Keys - {n}| == |cache| - 1;
  }

  // The victim is the one block every other cached block was accessed after.
  lemma VictimOldest(cache: map<nat, CachedBlock>, acc: seq<nat>)
    requires LruInv(cache, acc) && |cache| > 0
    ensures Since(acc, Victim(cache)) == cache.Keys - {Victim(cache)}
    ensures |Since(acc, Victim(cache))| == |cache| - 1
  {
    var v := Victim(cache);
    SinceCached(cache, acc, v);
    forall n: nat | n in cache && n != v ensures n in Since(acc, v) {
      SinceTotal(acc, v, n);
      assert Stamp(cache, v) <= Stamp(cache, n);
    }
    assert Since(acc, v) == cache.Keys - {v};
  }

  // Appending an access to x ages every other block by one unless x was already accessed since;
  // the blocks that become too old are exactly those making room for x drops.
  lemma Aging(s: Store, acc: seq<nat>, x: nat, n: nat)
    requires Inv(s) && LruInv(s.cache, acc) && n in acc && n != x
    ensures n in RoomFor(s, x) <==> |Since(acc, n) + {x}| < CACHE_SIZE
  {
    if n !in s.cache {
      SubsetSize(Since(acc, n), Since(acc, n) + {x});
    } else if x in s.cache {
      AgingHit(acc, x, n);
    } else {
      AgingMiss(s, acc, x, n);
    }
  }

  lemma AgingHit(acc: seq<nat>, x: nat, n: nat)
    requires n in acc && x in acc && n != x
    requires |Since(acc, n)| < CACHE_SIZE && |Since(acc, x)| < CACHE_SIZE
    ensures |Since(acc, n) + {x}| < CACHE_SIZE
  {
    SinceTotal(acc, n, x);
    if x in Since(acc, n) {
      AddOne(Since(acc, n), x);
    } else {
      SinceSelf(acc, n);
      SinceTotal(acc, x, n);
      GrowWithin(Since(acc, n), Since(acc, x), n, x);
    }
  }

  lemma AgingMiss(s: Store, acc: seq<nat>, x: nat, n: nat)
    requires Inv(s) && LruInv(s.cache, acc) && n in s.cache && x !in s.cache
    ensures n in RoomFor(s, x) <==> |Since(acc, n) + {x}| < CACHE_SIZE
  {
    SinceCached(s.cache, acc, n);
    AddOne(Since(acc, n), x);
    if |s.cache| == CACHE_SIZE { AgingFull(s, acc, n); }
  }

  lemma AgingFull(s: Store, acc: seq<nat>, n: nat)
    requires Inv(s) && LruInv(s.cache, acc) && n in s.cache && |s.cache| == CACHE_SIZE
    ensures n == Victim(s.cache) <==> |Since(acc, n)| == CACHE_SIZE - 1
  {
    var v := Victim(s.cache);
    VictimOldest(s.cache, acc);
    if n != v {
      SinceTotal(acc, v, n);
      SinceSelf(acc, n);
      AddOne(Since(acc, n), n);
      SubsetSize(Since(acc, n) + {n}, Since(acc, v));
    }
  }

  lemma TouchLru(s: Store, t: Store, acc: seq<nat>, x: nat)
    requires Inv(s) && LruInv(s.cache, acc)
    requires t.cache.Keys == RoomFor(s, x) + {x} && Stamp(t.cache, x) == s.counter + 1
    requires forall n: nat :: n in t.cache && n != x ==> Stamp(t.cache, n) == Stamp(s.cache, n)
    ensures LruInv(t.cache, acc + [x])
  {
    var acc' := acc + [x];
    assert acc'[..|acc|] == acc;
    assert Since(acc', x) == {};
    forall n: nat | n != x
      ensures n in t.cache <==> n in acc' && |Since(acc', n)| < CACHE_SIZE
      ensures n in acc ==> n in acc' && Since(acc', n) == Since(acc, n) + {x}
    {
      if n in acc { Aging(s, acc, x, n); }
    }
    forall m: nat, n: nat | m in t.cache && n in t.cache && n in Since(acc', m)
      ensures Stamp(t.cache, m) < Stamp(t.cache, n)
    {
      SinceSelf(acc', m);
      if n == x {
        assert Stamp(s.cache, m) <= s.counter;
      }
    }
  }

  lemma StepStamps(s: Store, op: Op)
    requires Inv(s)
    ensures Succeeds(s, op) ==> Step(s, op).cache.Keys == RoomFor(s, op.n) + {op.n}
    ensures Succeeds(s, op) ==> Stamp(Step(s, op).cache, op.n) == s.counter + 1
    ensures Succeeds(s, op) ==> forall n: nat :: n in Step(s, op).cache && n != op.n ==>
      Stamp(Step(s, op).cache, n) == Stamp(s.cache, n)
    ensures !Succeeds(s, op) ==> Step(s, op).cache.Keys == s.cache.Keys
    ensures !Succeeds(s, op) ==> forall n: nat :: Stamp(Step(s, op).cache, n) == Stamp(s.cache, n)
  {
    hide Inv, Updates, SameBlocks, MissLoses, FlushedDevice, FlushSucceeds;
    match op
    case ReadOp(n) => ReadStep(s, n);
    case WriteOp(n, data) => WriteStep(s, n, data);
    case FlushOp => FlushStep(s);
    case FaultOp(_) =>
  }

  // The cache is exactly LRU: started empty, after any run a block is cached if and only if it was
  // accessed and fewer than CACHE_SIZE other blocks were accessed since.
  lemma {:induction false} ExactlyLru(s: Store, ops: seq<Op>)
    requires Inv(s) && s.cache == map[]
    ensures LruInv(Run(s, ops).cache, Accesses(s, ops))
  {
    if ops != [] {
      var rest, op := ops[..|ops| - 1], ops[|ops| - 1];
      ExactlyLru(s, rest);
      RunInv(s, rest);
      var u := Run(s, rest);
      StepStamps(u, op);
      if Succeeds(u, op) {
        TouchLru(u, Step(u, op), Accesses(s, rest), op.n);
      } else {
        assert Accesses(s, ops) == Accesses(s, rest);
      }
    }
  }

  lemma {:induction false} OnlyWritesReach(s: Store, ops: seq<Op>, n: nat)
    requires Inv(s) && s.cache == map[] && n >= |s.dev.blocks| && LastWritten(s, ops, n).None?
    ensures n !in Run(s, ops).cache && n !in Accesses(s, ops) && |Run(s, ops).dev.blocks| == |s.dev.blocks|
  {
    if ops != [] {
      var rest, op := ops[..|ops| - 1], ops[|ops| - 1];
      OnlyWritesReach(s, rest, n);
      RunInv(s, rest);
      StepStamps(Run(s, rest), op);
      StepDevice(Run(s, rest), op);
      hide Inv, Step;
    }
  }

  lemma {:induction false} RunDevice(s: Store, ops: seq<Op>)
    ensures |Run(s, ops).dev.blocks| == |s.dev.blocks|
  {
    if ops != [] {
      RunDevice(s, ops[..|ops| - 1]);
      StepDevice(Run(s, ops[..|ops| - 1]), ops[|ops| - 1]);
    }
  }

  // Writes are not checked against the size of the disk: a block past its end is cached like any
  // other, and once 256 others were accessed since, the write is gone.
  lemma PastTheEndIsLost(s: Store, ops: seq<Op>, n: nat)
    requires Inv(s) && s.cache == map[] && n >= |s.dev.blocks|
    requires n in Accesses(s, ops) && |Since(Accesses(s, ops), n)| >= CACHE_SIZE
    ensures At(Run(s, ops), n).None? && LastWritten(s, ops, n).Some?
  {
    ExactlyLru(s, ops);
    RunDevice(s, ops);
    hide Inv, Run, Accesses, LastWritten;
    if LastWritten(s, ops, n).None? { OnlyWritesReach(s, ops, n); }
  }

  // Such a run: one write past the end and a read of each of 256 blocks.
  function Upto(k: nat): seq<nat> {
    if k == 0 then [] else Upto(k - 1) + [k - 1]
  }

  function Sweep(n: nat, data: Block, k: nat): seq<Op> {
    if k == 0 then [WriteOp(n, data)] else Sweep(n, data, k - 1) + [ReadOp(k - 1)]
  }

  lemma {:induction false} SweepAccesses(s: Store, n: nat, data: Block, k: nat)
    requires s.dev.initialized && s.dev.failing == {} && k <= |s.dev.blocks|
    ensures Accesses(s, Sweep(n, data, k)) == [n] + Upto(k)
    ensures forall i :: 0 <= i < |Sweep(n, data, k)| ==> !Sweep(n, data, k)[i].FaultOp?
  {
    hide Step, Run;
    var ops := Sweep(n, data, k);
    if k == 0 {
      assert ops[..0] == [] && Accesses(s, []) == [];
    } else {
      SweepAccesses(s, n, data, k - 1);
      assert ops[..|ops| - 1] == Sweep(n, data, k - 1);
      RunSameDevice(s, Sweep(n, data, k - 1));
      assert Run(s, Sweep(n, data, k - 1)).dev.Accepts(k - 1);
      assert [n] + Upto(k) == [n] + Upto(k - 1) + [k - 1];
    }
  }

  lemma {:induction false} SinceUpto(n: nat, k: nat)
    requires k <= n
    ensures |Since([n] + Upto(k), n)| == k && forall i :: i in Since([n] + Upto(k), n) ==> i < k
  {
    if k > 0 {
      var acc := [n] + Upto(k);
      assert acc == [n] + Upto(k - 1) + [k - 1];
      assert acc[..|acc| - 1] == [n] + Upto(k - 1);
      SinceUpto(n, k - 1);
      AddOne(Since([n] + Upto(k - 1), n), k - 1);
    }
  }

  lemma SweepLoses(s: Store, n: nat, data: Block)
    requires Inv(s) && s.cache == map[] && s.dev.initialized && s.dev.failing == {}
    requires CACHE_SIZE <= |s.dev.blocks| <= n
    ensures At(Run(s, Sweep(n, data, CACHE_SIZE)), n).None? && LastWritten(s, Sweep(n, data, CACHE_SIZE), n).Some?
  {
    hide Inv, Run, Accesses, LastWritten, Sweep, Upto;
    SweepAccesses(s, n, data, CACHE_SIZE);
    SinceUpto(n, CACHE_SIZE);
    PastTheEndIsLost(s, Sweep(n, data, CACHE_SIZE), n);
  }
}
