// The block device and the LRU write-back cache over it, as the objects the kernel shares.
module BlockCaching {
  import opened Bytes
  import opened Collections
  import opened CacheModel
  import opened CacheRuns

  class BlockDevice {
    var initialized: bool
    var blocks: seq<Block>
    var failing: set<nat>

    constructor (blocks: seq<Block>)
      ensures Value() == Device(true, blocks, {})
    {
      this.initialized := true;
      this.blocks := blocks;
      this.failing := {};
    }

    ghost function Value(): Device
      reads this
    {
      Device(initialized, blocks, failing)
    }

    method ReadBlock(n: nat) returns (r: Result<Block>)
      ensures r == Value().ReadBlock(n)
      ensures r == if initialized && n < |blocks| && n !in failing then Ok(blocks[n]) else Err
    {
      if !initialized { return Err; }
      if n >= |blocks| { return Err; }
      if n in failing { return Err; }
      r := Ok(blocks[n]);
    }

    method WriteBlock(n: nat, data: Block) returns (ok: bool)
      modifies this
      ensures ok == old(Value()).Accepts(n)
      ensures Value() == old(Value()).WriteBlock(n, data)
      ensures ok <==> initialized && n < |old(blocks)| && n !in failing
      ensures initialized == old(initialized) && failing == old(failing)
      ensures blocks == if ok then old(blocks)[n := data] else old(blocks)
    {
      if !initialized { return false; }
      if n >= |blocks| { return false; }
      if n in failing { return false; }
      blocks := blocks[n := data];
      ok := true;
    }
  }

  class BlockCache {
    var cache: map<nat, CachedBlock>
    var accessCounter: nat
    const device: BlockDevice

    constructor (device: BlockDevice)
      ensures this.device == device && Valid()
      ensures Value() == Store(map[], 0, device.Value())
    {
      this.device := device;
      cache := map[];
      accessCounter := 0;
    }

    ghost function Value(): Store
      reads this, device
    {
      Store(cache, accessCounter, device.Value())
    }

    ghost predicate Valid()
      reads this, device
    {
      Inv(Value())
    }

    method Read(n: nat) returns (r: Result<Block>)
      requires Valid()
      modifies this, device
      ensures Valid() && Value() == CacheModel.Read(old(Value()), n)
      ensures r == ReadResult(old(Value()), n)
    {
      ghost var s := Value();
      assert Inv(CacheModel.Read(s, n)) by { ReadStep(s, n); }
      hide Inv;
      var counter := accessCounter + 1;
      if n in cache {
        r := Ok(cache[n].data);
        cache := cache[n := cache[n].(access := counter)];
        accessCounter := counter;
        assert Value() == CacheModel.Read(s, n);
        return;
      }
      r := device.ReadBlock(n);
      if r.Err? {
        accessCounter := counter;
        assert Value() == CacheModel.Read(s, n);
        return;
      }
      if |cache| >= CACHE_SIZE { Evict(); }
      accessCounter := counter;
      cache := cache[n := CachedBlock(r.value, false, counter)];
      assert Value() == CacheModel.Read(s, n);
    }

    method Write(n: nat, data: Block)
      requires Valid()
      modifies this, device
      ensures Valid() && Value() == CacheModel.Write(old(Value()), n, data)
    {
      ghost var s := Value();
      assert Inv(CacheModel.Write(s, n, data)) by { WriteStep(s, n, data); }
      hide Inv, EvictOne;
      var counter := accessCounter + 1;
      if |cache| >= CACHE_SIZE && n !in cache { Evict(); }
      accessCounter := counter;
      cache := cache[n := CachedBlock(data, true, counter)];
      assert Value() == CacheModel.Write(s, n, data);
    }

    // Ok(count) is the number of blocks written; on Err the blocks before the failing one are on
    // the device and everything is still marked dirty.
    method Flush() returns (r: Result<nat>)
      requires Valid()
      modifies this, device
      ensures Valid() && Value() == CacheModel.Flush(old(Value()))
      ensures r.Ok? <==> FlushSucceeds(old(Value()))
      ensures r.Ok? ==> r.value == |DirtyBlocks(old(cache))|
    {
      ghost var s := Value();
      assert Inv(CacheModel.Flush(s)) by { FlushStep(s); }
      var dirty := InOrder(DirtyBlocks(cache));
      DistinctSize(dirty);
      assert Elements(dirty) == DirtyBlocks(cache);
      var ok := WriteAll(dirty);
      if !ok { return Err; }
      cache := map n | n in cache :: cache[n].(dirty := false);
      r := Ok(|dirty|);
    }

    method WriteAll(dirty: seq<nat>) returns (ok: bool)
      requires Ascending(dirty) && forall n :: n in dirty <==> n in cache && cache[n].dirty
      modifies device
      ensures device.Value() == FlushedDevice(old(Value()))
      ensures ok <==> FlushSucceeds(old(Value()))
    {
      ghost var s := Value();
      var i := 0;
      while i < |dirty|
        invariant 0 <= i <= |dirty|
        invariant device.initialized == s.dev.initialized && device.failing == s.dev.failing
        invariant |device.blocks| == |s.dev.blocks|
        invariant forall k :: 0 <= k < i ==> s.dev.Accepts(dirty[k])
        invariant forall n :: 0 <= n < |s.dev.blocks| ==>
          device.blocks[n] == if n in dirty[..i] then s.cache[n].data else s.dev.blocks[n]
      {
        ok := device.WriteBlock(dirty[i], cache[dirty[i]].data);
        if !ok {
          FlushStops(s, dirty, i, device.Value());
          return;
        }
        assert dirty[..i + 1] == dirty[..i] + [dirty[i]];
        i := i + 1;
      }
      FlushCompletes(s, dirty, device.Value());
      ok := true;
    }

    method Evict()
      requires Valid()
      modifies this, device
      ensures Valid() && Value() == EvictOne(old(Value()))
    {
      if |cache| == 0 { return; }
      ghost var s := Value();
      EvictOneStep(s);
      var keys := cache.Keys;
      var lru :| lru in keys;
      var rest := keys - {lru};
      while rest != {}
        invariant lru in keys && rest <= keys
        invariant forall m :: m in keys && m !in rest ==> Stamp(cache, lru) <= Stamp(cache, m)
        decreases rest
      {
        var k :| k in rest;
        if cache[k].access < cache[lru].access { lru := k; }
        rest := rest - {k};
      }
      assert Stamp(cache, lru) == Stamp(cache, Victim(cache));
      if cache[lru].dirty {
        var _ := device.WriteBlock(lru, cache[lru].data);
      }
      cache := cache - {lru};
      assert Value() == EvictOne(s);
    }
  }

  // The device after the first i dirty blocks, when block i is refused.
  lemma FlushStops(s: Store, dirty: seq<nat>, i: nat, dev: Device)
    requires Ascending(dirty) && forall n :: n in dirty <==> n in s.cache && s.cache[n].dirty
    requires i < |dirty| && !s.dev.Accepts(dirty[i]) && forall k :: 0 <= k < i ==> s.dev.Accepts(dirty[k])
    requires dev.initialized == s.dev.initialized && dev.failing == s.dev.failing && |dev.blocks| == |s.dev.blocks|
    requires forall n :: 0 <= n < |s.dev.blocks| ==>
      dev.blocks[n] == if n in dirty[..i] then s.cache[n].data else s.dev.blocks[n]
    ensures dev == FlushedDevice(s) && !FlushSucceeds(s)
  {
    assert dirty[i] in dirty && Dirty(s, dirty[i]);
    forall n | 0 <= n < |s.dev.blocks| ensures n in dirty[..i] <==> FlushReaches(s, n) {
      if n in dirty[..i] {
        var k :| 0 <= k < i && dirty[k] == n;
        forall m: nat | m <= n && Dirty(s, m) ensures s.dev.Accepts(m) {
          assert m in dirty;
          var j :| 0 <= j < |dirty| && dirty[j] == m;
          assert j <= k;
        }
      } else if Dirty(s, n) {
        assert n in dirty;
        var k :| 0 <= k < |dirty| && dirty[k] == n;
        assert dirty[i] <= n;
      }
    }
    assert dev.blocks == FlushedDevice(s).blocks;
  }

  lemma FlushCompletes(s: Store, dirty: seq<nat>, dev: Device)
    requires forall n :: n in dirty <==> n in s.cache && s.cache[n].dirty
    requires forall k :: 0 <= k < |dirty| ==> s.dev.Accepts(dirty[k])
    requires dev.initialized == s.dev.initialized && dev.failing == s.dev.failing && |dev.blocks| == |s.dev.blocks|
    requires forall n :: 0 <= n < |s.dev.blocks| ==>
      dev.blocks[n] == if n in dirty[..|dirty|] then s.cache[n].data else s.dev.blocks[n]
    ensures dev == FlushedDevice(s) && FlushSucceeds(s)
  {
    assert dirty[..|dirty|] == dirty;
    assert forall m: nat :: Dirty(s, m) ==> m in dirty;
    assert dev.blocks == FlushedDevice(s).blocks;
  }
}
