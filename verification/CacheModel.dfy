// The write-back block cache as a value: what each operation does to the cache and the device,
// and why the pair behaves as one plain block map.
module CacheModel {
  import opened Bytes
  import opened Collections

  const CACHE_SIZE: nat := 256

  // `failing` holds the sectors whose transfers currently end in an I/O error.
  datatype Device = Device(initialized: bool, blocks: seq<Block>, failing: set<nat>) {
    predicate Accepts(n: nat) {
      initialized && n < |blocks| && n !in failing
    }

    function ReadBlock(n: nat): Result<Block> {
      if Accepts(n) then Ok(blocks[n]) else Err
    }

    function WriteBlock(n: nat, data: Block): Device {
      if Accepts(n) then this.(blocks := blocks[n := data]) else this
    }
  }

  datatype CachedBlock = CachedBlock(data: Block, dirty: bool, access: nat)

  datatype Store = Store(cache: map<nat, CachedBlock>, counter: nat, dev: Device)

  function Stamp(cache: map<nat, CachedBlock>, n: nat): nat {
    if n in cache then cache[n].access else 0
  }

  // Every reachable store: the cache is bounded, access stamps are pairwise distinct and
  // bounded by the counter, and a clean entry equals the device.
  ghost predicate Inv(s: Store) {
    && |s.cache| <= CACHE_SIZE
    && (forall n: nat {:trigger Stamp(s.cache, n)} :: Stamp(s.cache, n) <= s.counter)
    && (forall m: nat, n: nat {:trigger Stamp(s.cache, m), Stamp(s.cache, n)} ::
          m in s.cache && n in s.cache && m != n ==> Stamp(s.cache, m) != Stamp(s.cache, n))
    && (forall n :: n in s.cache && !s.cache[n].dirty ==> n < |s.dev.blocks| && s.cache[n].data == s.dev.blocks[n])
  }

  // The plain block map the pair stands for: what block n holds, if there is such a block.
  function At(s: Store, n: nat): Option<Block> {
    if n in s.cache then Some(s.cache[n].data)
    else if n < |s.dev.blocks| then Some(s.dev.blocks[n])
    else None
  }

  ghost predicate SameBlocks(s: Store, t: Store) {
    forall n: nat :: At(s, n) == At(t, n)
  }

  // t is s with block n holding data.
  ghost predicate Updates(s: Store, t: Store, n: nat, data: Block) {
    forall m: nat :: At(t, m) == if m == n then Some(data) else At(s, m)
  }

  ghost predicate IsVictim(cache: map<nat, CachedBlock>, n: nat) {
    n in cache && forall m: nat {:trigger Stamp(cache, m)} :: m in cache ==> Stamp(cache, n) <= Stamp(cache, m)
  }

  lemma {:induction false} VictimExists(cache: map<nat, CachedBlock>)
    requires |cache| > 0
    ensures exists n :: IsVictim(cache, n)
    decreases |cache|
  {
    var k :| k in cache;
    var rest := cache - {k};
    assert rest.Keys == cache.Keys - {k};
    if |rest| == 0 {
      assert IsVictim(cache, k);
    } else {
      VictimExists(rest);
      var n :| IsVictim(rest, n);
      assert forall m :: m in cache ==> m == k || m in rest;
      assert forall m: nat :: m in rest ==> Stamp(rest, m) == Stamp(cache, m);
      assert IsVictim(cache, if Stamp(cache, n) <= Stamp(cache, k) then n else k);
    }
  }

  // `min_by_key(access_count)`; unique because stamps are.
  ghost function Victim(cache: map<nat, CachedBlock>): (n: nat)
    requires |cache| > 0
    ensures IsVictim(cache, n)
  {
    VictimExists(cache);
    var n :| IsVictim(cache, n);
    n
  }

  ghost function EvictOne(s: Store): Store {
    if |s.cache| == 0 then s
    else
      var n := Victim(s.cache);
      var b := s.cache[n];
      Store(s.cache - {n}, s.counter, if b.dirty then s.dev.WriteBlock(n, b.data) else s.dev)
  }

  function ReadResult(s: Store, n: nat): Result<Block> {
    if n in s.cache then Ok(s.cache[n].data) else s.dev.ReadBlock(n)
  }

  ghost function Read(s: Store, n: nat): Store {
    var stamp := s.counter + 1;
    if n in s.cache then
      Store(s.cache[n := s.cache[n].(access := stamp)], stamp, s.dev)
    else match s.dev.ReadBlock(n)
      case Err => s.(counter := stamp)
      case Ok(data) =>
        var u := if |s.cache| >= CACHE_SIZE then EvictOne(s) else s;
        Store(u.cache[n := CachedBlock(data, false, stamp)], stamp, u.dev)
  }

  ghost function Write(s: Store, n: nat, data: Block): Store {
    var stamp := s.counter + 1;
    var u := if |s.cache| >= CACHE_SIZE && n !in s.cache then EvictOne(s) else s;
    Store(u.cache[n := CachedBlock(data, true, stamp)], stamp, u.dev)
  }

  predicate Dirty(s: Store, n: nat) {
    n in s.cache && s.cache[n].dirty
  }

  function DirtyBlocks(cache: map<nat, CachedBlock>): set<nat> {
    set n | n in cache && cache[n].dirty
  }

  // Flush goes through the dirty blocks in ascending order and stops at the first error.
  ghost predicate FlushReaches(s: Store, n: nat) {
    Dirty(s, n) && forall m: nat :: m <= n && Dirty(s, m) ==> s.dev.Accepts(m)
  }

  ghost predicate FlushSucceeds(s: Store) {
    forall m :: Dirty(s, m) ==> s.dev.Accepts(m)
  }

  ghost function FlushedDevice(s: Store): Device {
    s.dev.(blocks := seq(|s.dev.blocks|, n requires 0 <= n < |s.dev.blocks| =>
      if FlushReaches(s, n) then s.cache[n].data else s.dev.blocks[n]))
  }

  ghost function Flush(s: Store): Store {
    Store(if FlushSucceeds(s) then map n | n in s.cache :: s.cache[n].(dirty := false) else s.cache,
          s.counter, FlushedDevice(s))
  }

  ////////////// One step //////////////

  // Eviction throws a write away: the victim is dirty, the device refuses it and does not hold the
  // same bytes already.
  ghost predicate EvictionLoses(s: Store) {
    && |s.cache| > 0
    && var n := Victim(s.cache);
       s.cache[n].dirty && !s.dev.Accepts(n) && (n < |s.dev.blocks| ==> s.dev.blocks[n] != s.cache[n].data)
  }

  // A miss on n has to make room and loses the write it evicts.
  ghost predicate MissLoses(s: Store, n: nat) {
    n !in s.cache && |s.cache| >= CACHE_SIZE && EvictionLoses(s)
  }

  // The cached block numbers left once there is room for n.
  ghost function RoomFor(s: Store, n: nat): set<nat> {
    if n in s.cache || |s.cache| < CACHE_SIZE then s.cache.Keys else s.cache.Keys - {Victim(s.cache)}
  }

  lemma SubCacheInv(s: Store, t: Store)
    requires Inv(s) && t.counter == s.counter && |t.cache| <= CACHE_SIZE
    requires forall n :: n in t.cache ==> n in s.cache && t.cache[n] == s.cache[n]
    requires |t.dev.blocks| == |s.dev.blocks|
    requires forall n :: n in t.cache && n < |s.dev.blocks| ==> t.dev.blocks[n] == s.dev.blocks[n]
    ensures Inv(t)
  {
    assert forall n: nat :: n in t.cache ==> Stamp(t.cache, n) == Stamp(s.cache, n);
  }

  lemma EvictOneStep(s: Store)
    requires Inv(s) && |s.cache| > 0
    ensures Inv(EvictOne(s))
    ensures |EvictOne(s).cache| == |s.cache| - 1
    ensures EvictOne(s).cache.Keys == s.cache.Keys - {Victim(s.cache)}
    ensures forall m: nat :: m != Victim(s.cache) ==> At(EvictOne(s), m) == At(s, m)
    ensures At(EvictOne(s), Victim(s.cache)) == At(s, Victim(s.cache)) <==> !EvictionLoses(s)
    ensures forall m :: m !in s.cache && 0 <= m < |s.dev.blocks| ==>
      m < |EvictOne(s).dev.blocks| && EvictOne(s).dev.blocks[m] == s.dev.blocks[m]
  {
    MapRemoveSize(s.cache, Victim(s.cache));
    SubCacheInv(s, EvictOne(s));
  }

  lemma Insert(u: Store, n: nat, b: CachedBlock)
    requires Inv(u) && (n in u.cache || |u.cache| < CACHE_SIZE)
    requires b.access == u.counter + 1
    requires !b.dirty ==> n < |u.dev.blocks| && b.data == u.dev.blocks[n]
    ensures Inv(Store(u.cache[n := b], u.counter + 1, u.dev))
  {
    MapInsertSize(u.cache, n, b);
    var c := u.cache[n := b];
    assert forall m: nat :: m != n ==> Stamp(c, m) == Stamp(u.cache, m);
  }

  // s with room for n.
  ghost function Room(s: Store, n: nat): Store {
    if n !in s.cache && |s.cache| >= CACHE_SIZE then EvictOne(s) else s
  }

  // s with block n inserted after making room.
  ghost function Place(s: Store, n: nat, b: CachedBlock): Store {
    Store(Room(s, n).cache[n := b], s.counter + 1, Room(s, n).dev)
  }

  lemma PlaceInv(s: Store, n: nat, b: CachedBlock)
    requires Inv(s) && b.access == s.counter + 1
    requires !b.dirty ==> At(s, n) == Some(b.data) && !Dirty(s, n)
    ensures Inv(Place(s, n, b)) && Place(s, n, b).cache.Keys == RoomFor(s, n) + {n}
  {
    if n !in s.cache && |s.cache| >= CACHE_SIZE { EvictOneStep(s); }
    Insert(Room(s, n), n, b);
  }

  lemma PlaceBlocks(s: Store, n: nat, b: CachedBlock)
    requires Inv(s)
    ensures MissLoses(s, n) ==> At(Place(s, n, b), Victim(s.cache)) != At(s, Victim(s.cache)) && Victim(s.cache) != n
    ensures forall m: nat :: !(MissLoses(s, n) && m == Victim(s.cache)) ==>
      At(Place(s, n, b), m) == if m == n then Some(b.data) else At(s, m)
  {
    if n !in s.cache && |s.cache| >= CACHE_SIZE { EvictOneStep(s); }
    assert forall m: nat :: m != n ==> At(Place(s, n, b), m) == At(Room(s, n), m);
  }

  lemma ReadPlaces(s: Store, n: nat)
    requires Inv(s) && ReadResult(s, n).Ok?
    ensures Read(s, n) == Place(s, n, CachedBlock(ReadResult(s, n).value, Dirty(s, n), s.counter + 1))
    ensures At(s, n) == Some(ReadResult(s, n).value)
  {
  }

  // A read answers from the block map and changes it only by losing an evicted write.
  lemma ReadStep(s: Store, n: nat)
    requires Inv(s)
    ensures Inv(Read(s, n))
    ensures ReadResult(s, n).Ok? ==> At(s, n) == Some(ReadResult(s, n).value)
    ensures ReadResult(s, n).Ok? ==> Read(s, n).cache.Keys == RoomFor(s, n) + {n}
    ensures ReadResult(s, n).Err? ==> Read(s, n) == s.(counter := s.counter + 1)
    ensures SameBlocks(s, Read(s, n)) <==> (ReadResult(s, n).Ok? ==> !MissLoses(s, n))
  {
    if ReadResult(s, n).Ok? {
      ReadPlaces(s, n);
      var b := CachedBlock(ReadResult(s, n).value, Dirty(s, n), s.counter + 1);
      PlaceInv(s, n, b);
      PlaceBlocks(s, n, b);
    }
  }

  // A write updates one block of the map; the only thing it can do besides is lose an evicted write.
  lemma WriteStep(s: Store, n: nat, data: Block)
    requires Inv(s)
    ensures Inv(Write(s, n, data))
    ensures Updates(s, Write(s, n, data), n, data) <==> !MissLoses(s, n)
    ensures Write(s, n, data).cache.Keys == RoomFor(s, n) + {n}
  {
    var b := CachedBlock(data, true, s.counter + 1);
    assert Write(s, n, data) == Place(s, n, b);
    PlaceInv(s, n, b);
    PlaceBlocks(s, n, b);
  }

  lemma FlushDevice(s: Store)
    requires Inv(s)
    ensures forall n :: n in s.cache && !s.cache[n].dirty ==> Flush(s).dev.blocks[n] == s.cache[n].data
    ensures FlushSucceeds(s) ==> forall n :: n in s.cache ==>
      n < |s.dev.blocks| && Flush(s).dev.blocks[n] == s.cache[n].data
  {
    forall n | n in s.cache && FlushSucceeds(s)
      ensures n < |s.dev.blocks| && Flush(s).dev.blocks[n] == s.cache[n].data
    {
      if s.cache[n].dirty {
        assert Dirty(s, n);
        assert FlushReaches(s, n);
      }
    }
  }

  lemma FlushInv(s: Store)
    requires Inv(s)
    ensures Inv(Flush(s))
  {
    FlushDevice(s);
    var t := Flush(s);
    assert t.cache.Keys == s.cache.Keys;
    assert |t.cache| == |t.cache.Keys| == |s.cache|;
    assert forall n: nat :: Stamp(t.cache, n) == Stamp(s.cache, n);
  }

  // Flush never changes the block map, even when it stops part-way; when it succeeds the device
  // holds the whole block map, and when it fails every dirty block is still dirty.
  lemma FlushStep(s: Store)
    requires Inv(s)
    ensures Inv(Flush(s)) && SameBlocks(s, Flush(s))
    ensures Flush(s).cache.Keys == s.cache.Keys
    ensures FlushSucceeds(s) ==> forall n: nat :: At(s, n) == At(Store(map[], 0, Flush(s).dev), n)
    ensures FlushSucceeds(s) ==> forall n :: n in s.cache ==> Flush(s).cache[n] == s.cache[n].(dirty := false)
    ensures !FlushSucceeds(s) ==> Flush(s).cache == s.cache
  {
    FlushInv(s);
    FlushDevice(s);
    assert Flush(s).cache.Keys == s.cache.Keys;
  }
}
