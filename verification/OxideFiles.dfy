// The file system object: reads, writes and deletes, and its trip to the disk and back through
// the write-back block cache.
module OxideFiles {
  import opened Bytes
  import opened Collections
  import opened Utf8Text
  import CacheModel
  import opened CacheRuns
  import opened BlockCaching
  import FsModel
  import opened DiskFormat
  import opened DiskRoundTrip
  import opened FsRuns

  type Path = FsModel.Path
  type FileEntry = FsModel.FileEntry

  // The blocks c with bs written from `at` on.
  function Splice(c: seq<Block>, at: nat, bs: seq<Block>): seq<Block>
    requires at + |bs| <= |c|
  {
    c[..at] + bs + c[at + |bs|..]
  }

  lemma SpliceMore(c: seq<Block>, at: nat, a: seq<Block>, b: seq<Block>)
    requires at + |a| + |b| <= |c|
    ensures Splice(Splice(c, at, a), at + |a|, b) == Splice(c, at, a + b)
  {
  }

  lemma SpliceOne(c: seq<Block>, at: nat, b: Block)
    requires at < |c|
    ensures c[at := b] == Splice(c, at, [b])
  {
  }

  ////////////// Writing //////////////

  // Writing these blocks from `at` on, one after the other.
  function Writes(at: nat, bs: seq<Block>): seq<Op> {
    seq(|bs|, i requires 0 <= i < |bs| => CacheRuns.WriteOp(at + i, bs[i]))
  }

  lemma WritesMore(at: nat, a: seq<Block>, b: seq<Block>)
    ensures Writes(at, a + b) == Writes(at, a) + Writes(at + |a|, b)
  {
  }

  // What has been written so far, with a few blocks more.
  lemma WroteMore(s: CacheModel.Store, at: nat, a: seq<Block>, b: seq<Block>)
    ensures Run(Run(s, Writes(at, a)), Writes(at + |a|, b)) == Run(s, Writes(at, a + b))
  {
    hide Run;
    WritesMore(at, a, b);
    RunMore(s, Writes(at, a), Writes(at + |a|, b));
  }

  lemma WroteNothing(s: CacheModel.Store, at: nat)
    ensures Run(s, Writes(at, [])) == s
  {
    assert Writes(at, []) == [];
  }

  lemma WroteOne(s: CacheModel.Store, at: nat, b: Block)
    ensures Run(s, Writes(at, [b])) == CacheModel.Write(s, at, b)
  {
    hide CacheModel.Write;
    assert Writes(at, [b]) == [CacheRuns.WriteOp(at, b)];
    assert Run(s, []) == s;
  }

  // On sectors that work, the blocks are then there and all others are as before.
  lemma {:induction false} WroteSteady(s: CacheModel.Store, at: nat, bs: seq<Block>)
    requires CacheModel.Inv(s) && Steady(s) && forall i :: at <= i < at + |bs| ==> s.dev.Accepts(i)
    ensures at + |bs| <= |s.dev.blocks| || bs == []
    ensures var t := Run(s, Writes(at, bs));
      && CacheModel.Inv(t) && Steady(t) && SameDevice(t.dev, s.dev)
      && (bs != [] ==> Contents(t) == Splice(Contents(s), at, bs)) && (bs == [] ==> t == s)
  {
    hide CacheModel.Inv, CacheModel.Write, Steady, Contents, Run;
    if bs == [] {
      WroteNothing(s, at);
    } else {
      var rest, b := bs[..|bs| - 1], bs[|bs| - 1];
      assert bs == rest + [b];
      WroteSteady(s, at, rest);
      WroteMore(s, at, rest, [b]);
      var u := Run(s, Writes(at, rest));
      WroteOne(u, at + |rest|, b);
      assert s.dev.Accepts(at + |rest|);
      WriteSteady(u, at + |rest|, b);
      if rest != [] {
        SpliceOne(Contents(u), at + |rest|, b);
        SpliceMore(Contents(s), at, rest, [b]);
      } else {
        SpliceOne(Contents(s), at, b);
      }
    }
  }

  method PutChunks(cache: BlockCache, at: nat, data: seq<byte>, first: nat) returns (next: nat)
    requires cache.Valid() && first <= |data|
    modifies cache, cache.device
    ensures cache.Valid() && next == at + |Chunks(data, first)|
    ensures cache.Value() == Run(old(cache.Value()), Writes(at, Chunks(data, first)))
  {
    hide CacheModel.Inv, CacheModel.Write, Run, Writes;
    ghost var s := cache.Value();
    ghost var out: seq<Block> := [];
    next := at;
    var offset := first;
    WroteNothing(s, at);
    while offset < |data|
      invariant first <= offset <= |data| && cache.Valid()
      invariant out + Chunks(data, offset) == Chunks(data, first) && next == at + |out|
      invariant cache.Value() == Run(s, Writes(at, out))
    {
      var chunk := Min(|data| - offset, BLOCK_SIZE);
      var cont := CopyInto(Zeros(BLOCK_SIZE), 0, data[offset..offset + chunk]);
      assert cont == Pad(data[offset..offset + chunk]);
      ghost var rest := Chunks(data, offset + chunk);
      assert out + ([cont] + rest) == (out + [cont]) + rest;
      WroteOne(cache.Value(), next, cont);
      WroteMore(s, at, out, [cont]);
      cache.Write(next, cont);
      out := out + [cont];
      next := next + 1;
      offset := offset + chunk;
    }
    assert out + [] == out;
  }

  method PutBlob(cache: BlockCache, at: nat, id: nat, data: seq<byte>) returns (next: nat)
    requires cache.Valid()
    modifies cache, cache.device
    ensures cache.Valid() && next == at + |BlobBlocks(id, data)|
    ensures cache.Value() == Run(old(cache.Value()), Writes(at, BlobBlocks(id, data)))
  {
    hide CacheModel.Inv, CacheModel.Write, Run, Writes, Chunks, ToLe;
    ghost var s := cache.Value();
    var block := CopyInto(Zeros(BLOCK_SIZE), 0, ToLe(id, 8));
    block := CopyInto(block, 8, ToLe(|data|, 4));
    var first := Min(|data|, FIRST_CHUNK);
    block := CopyInto(block, 12, data[..first]);
    assert block == BlobHead(id, data);
    WroteOne(s, at, block);
    cache.Write(at, block);
    WroteMore(s, at, [block], Chunks(data, first));
    next := PutChunks(cache, at + 1, data, first);
  }

  method BuildEntry(path: Path, entry: FileEntry) returns (block: Block)
    ensures block == EntryBlock(path, entry)
  {
    hide ToLe, Pad, CopyInto, Zeros;
    var len := Min(|path|, MAX_PATH);
    ghost var head, tail := ToLe(len, 2) + path[..len], EntryFields(entry);
    block := CopyInto(Zeros(BLOCK_SIZE), 0, ToLe(len, 2));
    CopyFirst(ToLe(len, 2));
    block := CopyInto(block, 2, path[..len]);
    CopyNext(ToLe(len, 2), path[..len]);
    var off := 2 + len;
    block := CopyInto(block, off, ToLe(entry.blobId, 8));
    CopyNext(head, ToLe(entry.blobId, 8));
    block := CopyInto(block, off + 8, ToLe(entry.size, 8));
    CopyNext(head + ToLe(entry.blobId, 8), ToLe(entry.size, 8));
    block := CopyInto(block, off + 16, ToLe(entry.created, 8));
    CopyNext(head + ToLe(entry.blobId, 8) + ToLe(entry.size, 8), ToLe(entry.created, 8));
    block := CopyInto(block, off + 24, ToLe(entry.modified, 8));
    CopyNext(head + ToLe(entry.blobId, 8) + ToLe(entry.size, 8) + ToLe(entry.created, 8), ToLe(entry.modified, 8));
    assert head + ToLe(entry.blobId, 8) + ToLe(entry.size, 8) + ToLe(entry.created, 8) + ToLe(entry.modified, 8) == head + tail;
  }

  method PutEntry(cache: BlockCache, at: nat, path: Path, entry: FileEntry)
    requires cache.Valid()
    modifies cache, cache.device
    ensures cache.Valid() && cache.Value() == Run(old(cache.Value()), Writes(at, [EntryBlock(path, entry)]))
  {
    hide CacheModel.Inv, CacheModel.Write, Run, Writes, EntryBlock;
    var block := BuildEntry(path, entry);
    WroteOne(cache.Value(), at, block);
    cache.Write(at, block);
  }

  method PutSuperBlock(cache: BlockCache, fs: FsModel.Fs, files: nat)
    requires cache.Valid()
    modifies cache, cache.device
    ensures cache.Valid() && cache.Value() == Run(old(cache.Value()), Writes(0, [SuperBlock(fs, files)]))
  {
    hide CacheModel.Inv, CacheModel.Write, Run, Writes, ToLe;
    var sb := CopyInto(Zeros(BLOCK_SIZE), 0, MAGIC);
    sb := CopyInto(sb, 8, ToLe(VERSION, 4));
    sb := CopyInto(sb, 12, ToLe(|fs.blobs|, 4));
    sb := CopyInto(sb, 16, ToLe(files, 4));
    sb := CopyInto(sb, 20, ToLe(fs.nextBlobId, 8));
    sb := CopyInto(sb, 28, ToLe(fs.totalBytes, 8));
    assert sb == SuperBlock(fs, files);
    WroteOne(cache.Value(), 0, sb);
    cache.Write(0, sb);
  }

  // All blobs, in ascending order of id.
  method PutBlobs(cache: BlockCache, fs: FsModel.Fs) returns (next: nat, ghost ids: seq<nat>)
    requires cache.Valid()
    modifies cache, cache.device
    ensures cache.Valid() && Lists(fs, ids) && next == 1 + |BlobSeq(fs.blobs, ids)|
    ensures cache.Value() == Run(old(cache.Value()), Writes(1, BlobSeq(fs.blobs, ids)))
  {
    hide CacheModel.Inv, Run, Writes, BlobBlocks, BlobSeq;
    ghost var s := cache.Value();
    var rest := fs.blobs.Keys;
    ids := [];
    next := 1;
    NoBlobs(fs.blobs);
    WroteNothing(s, 1);
    while rest != {}
      invariant rest <= fs.blobs.Keys && cache.Valid()
      invariant Ascending(ids) && forall id: nat :: id in ids <==> id in fs.blobs && id !in rest
      invariant forall i, m :: 0 <= i < |ids| && m in rest ==> ids[i] < m
      invariant next == 1 + |BlobSeq(fs.blobs, ids)| && cache.Value() == Run(s, Writes(1, BlobSeq(fs.blobs, ids)))
      decreases rest
    {
      var id := Least(rest);
      OneMoreBlob(fs.blobs, ids, id);
      WroteMore(s, 1, BlobSeq(fs.blobs, ids), BlobBlocks(id, fs.blobs[id]));
      next := PutBlob(cache, next, id, fs.blobs[id]);
      ids := ids + [id];
      rest := rest - {id};
    }
  }

  lemma NoBlobs(blobs: FsModel.Blobs)
    ensures BlobSeq(blobs, []) == []
  {
  }

  lemma OneMoreBlob(blobs: FsModel.Blobs, ids: seq<nat>, id: nat)
    requires id in blobs && forall i :: i in ids ==> i in blobs
    ensures forall i :: i in ids + [id] ==> i in blobs
    ensures BlobSeq(blobs, ids + [id]) == BlobSeq(blobs, ids) + BlobBlocks(id, blobs[id])
  {
    hide BlobBlocks;
    assert (ids + [id])[..|ids|] == ids;
  }

  lemma NoEntries(index: map<Path, FileEntry>)
    ensures IndexArea(index, []) == []
  {
  }

  lemma OneMoreEntry(index: map<Path, FileEntry>, order: seq<Path>, p: Path)
    requires p in index && forall q :: q in order ==> q in index
    ensures forall q :: q in order + [p] ==> q in index
    ensures IndexArea(index, order + [p]) == IndexArea(index, order) + [EntryBlock(p, index[p])]
  {
    hide EntryBlock;
    assert (order + [p])[..|order|] == order;
  }

  // The entries not deleted, in the order in which they are visited.
  method PutIndex(cache: BlockCache, fs: FsModel.Fs, at: nat) returns (next: nat, ghost order: seq<Path>)
    requires cache.Valid()
    modifies cache, cache.device
    ensures cache.Valid() && Visits(fs, order) && next == at + |order|
    ensures cache.Value() == Run(old(cache.Value()), Writes(at, IndexArea(fs.index, order)))
  {
    hide CacheModel.Inv, Run, Writes, EntryBlock, IndexArea;
    ghost var s := cache.Value();
    NoEntries(fs.index);
    var rest := fs.index.Keys;
    order := [];
    next := at;
    WroteNothing(s, at);
    while rest != {}
      invariant rest <= fs.index.Keys && Distinct(order) && cache.Valid()
      invariant forall p: Path :: p in order <==> FsModel.Live(fs, p) && p !in rest
      invariant next == at + |order| == at + |IndexArea(fs.index, order)|
      invariant cache.Value() == Run(s, Writes(at, IndexArea(fs.index, order)))
      decreases rest
    {
      var p :| p in rest;
      if !fs.index[p].deleted {
        OneMoreEntry(fs.index, order, p);
        WroteMore(s, at, IndexArea(fs.index, order), [EntryBlock(p, fs.index[p])]);
        PutEntry(cache, next, p, fs.index[p]);
        DistinctAppend(order, p);
        order := order + [p];
        next := next + 1;
      }
      rest := rest - {p};
    }
  }

  // The whole image, from block 0 on.
  method PutImage(cache: BlockCache, fs: FsModel.Fs) returns (ghost ids: seq<nat>, ghost order: seq<Path>)
    requires cache.Valid()
    modifies cache, cache.device
    ensures cache.Valid() && Lists(fs, ids) && Visits(fs, order)
    ensures cache.Value() == Run(old(cache.Value()), Writes(0, ImageOf(fs, ids, order)))
  {
    hide CacheModel.Inv, Run, Writes, BlobSeq, SuperBlock, IndexArea, Ascending;
    ghost var s := cache.Value();
    var files := |FsModel.LivePaths(fs)|;
    PutSuperBlock(cache, fs, files);
    var next;
    next, ids := PutBlobs(cache, fs);
    ghost var sb, bs := [SuperBlock(fs, files)], BlobSeq(fs.blobs, ids);
    WroteMore(s, 0, sb, bs);
    next, order := PutIndex(cache, fs, next);
    WroteMore(s, 0, sb + bs, IndexArea(fs.index, order));
    LiveCount(fs, order);
  }

  ////////////// Reading //////////////

  // Loading reads block 0, block 1 and so on, each once.
  function Reads(k: nat): seq<Op> {
    seq(k, i requires 0 <= i < k => ReadOp(i))
  }

  lemma ReadOneMore(s: CacheModel.Store, k: nat)
    ensures Run(s, Reads(k + 1)) == CacheModel.Read(Run(s, Reads(k)), k)
  {
    hide CacheModel.Read;
    assert Reads(k + 1)[..k] == Reads(k);
  }

  // Block n as it is then seen, with zeros if it cannot be read.
  ghost function Seen(s: CacheModel.Store, n: nat): Block {
    match CacheModel.ReadResult(Run(s, Reads(n)), n)
    case Ok(data) => data
    case Err => Zeros(BLOCK_SIZE)
  }

  // No blob takes more blocks than this.
  const BLOB_LIMIT: nat := 1 + (TWO_32 + BLOCK_SIZE - 1) / BLOCK_SIZE
  const READ_LIMIT: nat := 1 + TWO_32 * BLOB_LIMIT + TWO_32

  // More blocks than loading ever reads, and all of the disk.
  function ScanLength(s: CacheModel.Store): (n: nat)
    ensures n >= READ_LIMIT && n >= |s.dev.blocks|
  {
    if |s.dev.blocks| > READ_LIMIT then |s.dev.blocks| else READ_LIMIT
  }

  ghost function Scan(s: CacheModel.Store): (v: Disk)
    ensures |v| == ScanLength(s)
  {
    seq(ScanLength(s), n requires 0 <= n < ScanLength(s) => Seen(s, n))
  }

  // Reading has got as far as block n.
  ghost predicate ReadTo(cache: BlockCache, s: CacheModel.Store, n: nat)
    reads cache, cache.device
  {
    cache.Valid() && cache.Value() == Run(s, Reads(n))
  }

  method TryBlock(cache: BlockCache, n: nat, ghost s: CacheModel.Store) returns (r: Result<Block>)
    requires ReadTo(cache, s, n)
    modifies cache, cache.device
    ensures ReadTo(cache, s, n + 1) && r == CacheModel.ReadResult(Run(s, Reads(n)), n)
  {
    hide CacheModel.Inv, CacheModel.Read, CacheModel.ReadResult, Run, Reads;
    ReadOneMore(s, n);
    r := cache.Read(n);
  }

  method GetBlock(cache: BlockCache, n: nat, ghost s: CacheModel.Store) returns (b: Block)
    requires ReadTo(cache, s, n) && n < READ_LIMIT
    modifies cache, cache.device
    ensures ReadTo(cache, s, n + 1) && b == Fetch(Scan(s), n)
  {
    hide CacheModel.Inv, CacheModel.Read, CacheModel.ReadResult, Run, Reads;
    var r := TryBlock(cache, n, s);
    match r
    case Ok(data) => b := data;
    case Err => b := Zeros(BLOCK_SIZE);
  }

  lemma BlobEnd(v: Disk, at: nat)
    ensures AfterBlob(v, at) <= at + BLOB_LIMIT
  {
    FieldWidths();
    hide Fetch, FromLe;
  }

  method GetBlob(cache: BlockCache, at: nat, ghost s: CacheModel.Store) returns (id: nat, data: seq<byte>, next: nat)
    requires ReadTo(cache, s, at) && at + BLOB_LIMIT <= READ_LIMIT
    modifies cache, cache.device
    ensures ReadTo(cache, s, next)
    ensures id == BlobId(Fetch(Scan(s), at)) && data == ParseBlob(Scan(s), at) && next == AfterBlob(Scan(s), at)
  {
    hide ReadTo, FromLe, Fetch, Scan;
    ghost var c := Scan(s);
    BlobEnd(c, at);
    var block := GetBlock(cache, at, s);
    id := FromLe(block[0..8]);
    var size := FromLe(block[8..12]);
    next := at + 1;
    var first := Min(size, FIRST_CHUNK);
    data := block[12..12 + first];
    var remaining := size - first;
    ghost var tail := ParseChunks(c, at + 1, remaining);
    ghost var after := next + ChunkCount(remaining);
    while remaining > 0
      invariant ReadTo(cache, s, next)
      invariant data + ParseChunks(c, next, remaining) == block[12..12 + first] + tail
      invariant next + ChunkCount(remaining) == after
    {
      ChunkCountNext(remaining);
      var cont := GetBlock(cache, next, s);
      var chunk := Min(remaining, BLOCK_SIZE);
      assert data + (cont[..chunk] + ParseChunks(c, next + 1, remaining - chunk)) ==
             (data + cont[..chunk]) + ParseChunks(c, next + 1, remaining - chunk);
      data := data + cont[..chunk];
      remaining := remaining - chunk;
      next := next + 1;
    }
    assert data + [] == data;
  }

  lemma BlobRoom(i: nat, count: nat, next: nat)
    requires i < count < TWO_32 && next <= 1 + i * BLOB_LIMIT
    ensures next + BLOB_LIMIT <= 1 + (i + 1) * BLOB_LIMIT <= READ_LIMIT
  {
    assert (i + 1) * BLOB_LIMIT <= TWO_32 * BLOB_LIMIT;
  }

  method GetBlobs(cache: BlockCache, hash: FsModel.Hash, fs: FsModel.Fs, count: nat, ghost s: CacheModel.Store)
    returns (g: FsModel.Fs, next: nat)
    requires ReadTo(cache, s, 1) && count < TWO_32
    modifies cache, cache.device
    ensures ReadTo(cache, s, next) && Progress(g, next) == LoadBlobs(Scan(s), hash, fs, count)
    ensures next <= 1 + count * BLOB_LIMIT
  {
    hide ReadTo, BlobId, ParseBlob, AfterBlob, Fetch, Scan, FsModel.LivePaths;
    g, next := fs, 1;
    for i := 0 to count
      invariant ReadTo(cache, s, next) && Progress(g, next) == LoadBlobs(Scan(s), hash, fs, i)
      invariant next <= 1 + i * BLOB_LIMIT
    {
      BlobRoom(i, count, next);
      BlobEnd(Scan(s), next);
      var id, data, after := GetBlob(cache, next, s);
      g := g.(contentHashes := g.contentHashes[hash(data) := id], blobs := g.blobs[id := data]);
      next := after;
    }
  }

  // None is a kernel panic.
  method GetIndex(cache: BlockCache, fs: FsModel.Fs, at: nat, count: nat, ghost s: CacheModel.Store)
    returns (r: Option<FsModel.Fs>, ghost end: nat)
    requires ReadTo(cache, s, at) && at + count <= READ_LIMIT
    modifies cache, cache.device
    ensures ReadTo(cache, s, end) && r == LoadEntries(Scan(s), fs, at, count)
  {
    hide CacheModel.Inv, Run, Reads, ParseEntry, Fetch, Utf8, Scan;
    var g := fs;
    for i := 0 to count
      invariant ReadTo(cache, s, at + i) && LoadEntries(Scan(s), fs, at, i) == Some(g)
    {
      var block := GetBlock(cache, at + i, s);
      var e := ParseEntry(block);
      if e.None? {
        PanicStays(Scan(s), fs, at, i + 1, count);
        return None, at + i + 1;
      }
      g := LoadEntry(g, e.value);
    }
    r, end := Some(g), at + count;
  }

  lemma {:induction false} PanicStays(c: seq<Block>, fs: FsModel.Fs, at: nat, i: nat, n: nat)
    requires i <= n && LoadEntries(c, fs, at, i).None?
    ensures LoadEntries(c, fs, at, n).None?
  {
    hide ParseEntry, Fetch, LoadEntry;
    if i < n { PanicStays(c, fs, at, i, n - 1); }
  }

  // With only blocks the device takes in the cache, loading sees what the disk reads as.
  lemma {:induction false} SteadyReads(s: CacheModel.Store, k: nat)
    requires CacheModel.Inv(s) && Steady(s)
    ensures var t := Run(s, Reads(k));
      CacheModel.Inv(t) && Steady(t) && Contents(t) == Contents(s) && SameDevice(t.dev, s.dev)
  {
    hide CacheModel.Inv, CacheModel.Read, Steady, Contents;
    if k == 0 {
      assert Reads(k) == [];
    } else {
      SteadyReads(s, k - 1);
      ReadOneMore(s, k - 1);
      ReadSteady(Run(s, Reads(k - 1)), k - 1);
    }
  }

  lemma ScanSteady(s: CacheModel.Store)
    requires CacheModel.Inv(s) && Steady(s)
    ensures SameFetch(Scan(s), Contents(s))
  {
    hide CacheModel.Inv, CacheModel.ReadResult, Steady, Run, Reads, Zeros;
    forall n: nat ensures Fetch(Scan(s), n) == Fetch(Contents(s), n) {
      SteadyReads(s, n);
      ReadSteady(Run(s, Reads(n)), n);
    }
  }

  class OxideFs {
    var index: map<Path, FileEntry>
    var blobs: FsModel.Blobs
    var contentHashes: map<nat, nat>
    var nextBlobId: nat
    var totalBytes: nat
    const hash: FsModel.Hash

    constructor (hash: FsModel.Hash)
      ensures this.hash == hash && Value() == FsModel.EMPTY && Valid()
    {
      this.hash := hash;
      index, blobs, contentHashes, nextBlobId, totalBytes := map[], map[], map[], 1, 0;
    }

    ghost function Value(): FsModel.Fs
      reads this
    {
      FsModel.Fs(index, blobs, contentHashes, nextBlobId, totalBytes)
    }

    ghost predicate Valid()
      reads this
    {
      FsModel.FsInv(Value(), hash)
    }

    method WriteFile(path: Path, data: seq<byte>, tick: u64) returns (id: nat)
      requires Valid()
      modifies this
      ensures Valid() && Value() == FsModel.WriteFile(old(Value()), hash, path, data, tick)
      ensures id in blobs && blobs[id] == data
      ensures index == old(index)[path := FsModel.FileEntry(path, id, |data|, tick, tick, false)]
      ensures forall p: Path :: FsModel.ReadFile(Value(), p) ==
                                if p == path then Some(data) else FsModel.ReadFile(old(Value()), p)
    {
      FsModel.WriteFileStep(Value(), hash, path, data, tick);
      FsModel.AddBlobInv(Value(), hash, data);
      hide FsModel.FsInv, FsModel.ReadFile, FsModel.AddBlob, FsModel.BlobFor;
      id := StoreBlob(data);
      index := index[path := FsModel.FileEntry(path, id, |data|, tick, tick, false)];
    }

    // Finds the blob with these bytes or adds it.
    method StoreBlob(data: seq<byte>) returns (id: nat)
      modifies this`blobs, this`contentHashes, this`nextBlobId, this`totalBytes
      ensures Value() == FsModel.AddBlob(old(Value()), hash, data)
      ensures id == FsModel.BlobFor(old(Value()), hash, data)
    {
      var k := hash(data);
      if k in contentHashes {
        var existing := contentHashes[k];
        if existing in blobs && blobs[existing] == data { return existing; }
      }
      id := nextBlobId;
      nextBlobId := nextBlobId + 1;
      blobs := blobs[id := data];
      contentHashes := contentHashes[k := id];
      totalBytes := totalBytes + |data|;
    }

    method ReadFile(path: Path) returns (r: Option<seq<byte>>)
      ensures r == FsModel.ReadFile(Value(), path)
    {
      if path !in index { return None; }
      var entry := index[path];
      if entry.deleted { return None; }
      r := if entry.blobId in blobs then Some(blobs[entry.blobId]) else None;
    }

    // True just when the path was ever written, even if it is deleted already.
    method DeleteFile(path: Path) returns (known: bool)
      requires Valid()
      modifies this
      ensures Valid() && Value() == FsModel.DeleteFile(old(Value()), path)
      ensures known == (path in old(index))
      ensures index == if known then old(index)[path := old(index)[path].(deleted := true)] else old(index)
      ensures forall p: Path :: FsModel.ReadFile(Value(), p) ==
                                if p == path then None else FsModel.ReadFile(old(Value()), p)
    {
      FsModel.DeleteFileStep(Value(), hash, path);
      if path in index {
        index := index[path := index[path].(deleted := true)];
        return true;
      }
      known := false;
    }

    // The live entries under a prefix, each once.
    method List(prefix: seq<byte>) returns (r: seq<FileEntry>)
      requires Valid()
      ensures forall i, j :: 0 <= i < j < |r| ==> r[i].path != r[j].path
      ensures forall e :: e in r <==> e.path in FsModel.LiveUnder(Value(), prefix) && e == index[e.path]
    {
      r := [];
      var rest := index.Keys;
      while rest != {}
        invariant rest <= index.Keys
        invariant forall i, j :: 0 <= i < j < |r| ==> r[i].path != r[j].path
        invariant forall e :: e in r <==>
          e.path in FsModel.LiveUnder(Value(), prefix) && e == index[e.path] && e.path !in rest
        decreases rest
      {
        var p :| p in rest;
        assert FsModel.EntryOk(index[p], p, blobs);
        if prefix <= p && !index[p].deleted { r := r + [index[p]]; }
        rest := rest - {p};
      }
    }

    // Writes everything through the cache, on whatever disk, and flushes it.
    method SyncToDisk(cache: BlockCache) returns (ghost ids: seq<nat>, ghost order: seq<Path>)
      requires cache.Valid()
      modifies cache, cache.device
      ensures cache.Valid() && Lists(Value(), ids) && Visits(Value(), order)
      ensures cache.Value() == CacheModel.Flush(Run(old(cache.Value()), Writes(0, ImageOf(Value(), ids, order))))
    {
      hide CacheModel.Inv, CacheModel.Flush, Run, Writes, ImageOf, Lists, Visits;
      ids, order := PutImage(cache, FsModel.Fs(index, blobs, contentHashes, nextBlobId, totalBytes));
      var _ := cache.Flush();
    }

    // Reads a file system from the disk into this one.
    method LoadFromDisk(cache: BlockCache) returns (r: LoadStatus, ghost end: nat)
      requires cache.Valid()
      modifies this, cache, cache.device
      ensures ReadTo(cache, old(cache.Value()), end)
      ensures Yields(Load(Scan(old(cache.Value())), hash, old(Value())), r, old(Value()), Value())
    {
      hide LoadBlobs, LoadEntries, FromLe, CacheModel.Inv, CacheModel.ReadResult, Run, Reads;
      ghost var s := cache.Value();
      ReadNothing(s);
      NoMagic();
      FieldWidths();
      var first := TryBlock(cache, 0, s);
      assert Scan(s)[0] == Seen(s, 0);
      end := 1;
      if first.Err? { return Absent, end; }
      var sb := first.value;
      if sb[0..8] != MAGIC { return Absent, end; }
      hide Scan;
      var fs := FsModel.Fs(index, blobs, contentHashes, FromLe(sb[20..28]), FromLe(sb[28..36]));
      var g, next := GetBlobs(cache, hash, fs, FromLe(sb[12..16]), s);
      var loaded;
      loaded, end := GetIndex(cache, g, next, FromLe(sb[16..20]), s);
      if loaded.None? { return Crashed, end; }
      index, blobs, contentHashes := loaded.value.index, loaded.value.blobs, loaded.value.contentHashes;
      nextBlobId, totalBytes := loaded.value.nextBlobId, loaded.value.totalBytes;
      r := Present;
    }
  }

  datatype LoadStatus = Absent | Present | Crashed

  // The status and the new file system are what loading comes to.
  predicate Yields(outcome: LoadOutcome, r: LoadStatus, before: FsModel.Fs, after: FsModel.Fs) {
    match outcome
    case NoFileSystem => r == Absent && after == before
    case Panic => r == Crashed
    case Loaded(g) => r == Present && after == g
  }

  lemma ReadNothing(s: CacheModel.Store)
    ensures Run(s, Reads(0)) == s
  {
    assert Reads(0) == [];
  }

  ////////////// Restarting //////////////

  // The device takes every block of the image, from block 0 on.
  ghost predicate TakesImage(dev: CacheModel.Device, image: seq<Block>) {
    forall n :: 0 <= n < |image| ==> dev.Accepts(n)
  }

  // What is left on the disk by a sync.
  ghost function Synced(s: CacheModel.Store, image: seq<Block>): CacheModel.Store {
    CacheModel.Flush(Run(s, Writes(0, image)))
  }

  // With only blocks the device takes in the cache, and on a device that takes the image, the disk
  // then reads as before with the image from block 0 on.
  lemma SyncedSteady(s: CacheModel.Store, image: seq<Block>)
    requires CacheModel.Inv(s) && Steady(s) && TakesImage(s.dev, image) && image != []
    ensures |image| <= |s.dev.blocks|
    ensures Contents(CacheModel.Store(map[], 0, Synced(s, image).dev)) == Splice(Contents(s), 0, image)
    ensures Holds(Contents(CacheModel.Store(map[], 0, Synced(s, image).dev)), 0, image)
  {
    hide CacheModel.Inv, CacheModel.Flush, Run, Writes, Contents, Steady;
    WroteSteady(s, 0, image);
    FlushSteady(Run(s, Writes(0, image)));
  }

  lemma SyncedDevice(s: CacheModel.Store, image: seq<Block>)
    ensures SameDevice(Synced(s, image).dev, s.dev)
  {
    RunSameDevice(s, Writes(0, image));
    hide Run, Writes;
  }

  lemma SuperblockRefused(dev: CacheModel.Device, h: FsModel.Hash, fs: FsModel.Fs)
    requires !dev.Accepts(0)
    ensures Load(Contents(CacheModel.Store(map[], 0, dev)), h, fs) == NoFileSystem
  {
    NoMagic();
    hide Zeros, LoadBlobs, LoadEntries, FromLe;
  }

  // Sync, restart, load, on whatever disk and through a cache of whatever contents: a new file system
  // comes up with what the disk then reads as, and with nothing if the disk refuses the superblock.
  // Where the disk takes the image and everything cached, and counts are in range, that is the step of
  // the model; it is all of the old file system (less the entries marked deleted) just when the
  // format can express it.
  method Restart(fs: OxideFs, cache: BlockCache) returns (up: OxideFs, r: LoadStatus, ghost order: seq<Path>)
    requires fs.Valid() && cache.Valid()
    modifies cache, cache.device
    ensures fresh(up) && up.hash == fs.hash && fs.Value() == old(fs.Value()) && Writable(fs.Value(), order)
    ensures cache.Value() == Synced(old(cache.Value()), Image(fs.Value(), order))
    ensures var v := Contents(CacheModel.Store(map[], 0, cache.device.Value()));
      Yields(Load(v, fs.hash, FsModel.EMPTY), r, FsModel.EMPTY, up.Value())
    ensures !old(cache.device.Value().Accepts(0)) ==> r == Absent && up.Value() == FsModel.EMPTY
    ensures old(Steady(cache.Value()) && InRange(fs.Value())) &&
            TakesImage(old(cache.device.Value()), Image(fs.Value(), order)) ==>
      && Legal(fs.Value(), RestartOp(order)) && r == Present
      && up.Value() == FsStep(fs.Value(), fs.hash, RestartOp(order)) && up.Valid()
    ensures old(Steady(cache.Value()) && FsModel.StringPaths(fs.Value())) &&
            TakesImage(old(cache.device.Value()), Image(fs.Value(), order)) ==>
      (r == Present && up.Value() == FsModel.Compacted(fs.Value()) <==> Expressible(fs.Value()))
  {
    hide CacheModel.Inv, Load, Image, ImageOf, Holds, Expressible, FsModel.Compacted, FsModel.StringPaths;
    hide Contents, CacheModel.Flush, Run, Writes, Scan, InRange, Steady, TakesImage, FsModel.FsInv, Writable, Visits, Lists;
    hide Legal, FsStep;
    ghost var s := cache.Value();
    ghost var ids;
    ids, order := fs.SyncToDisk(cache);
    ImageOfValid(fs.Value(), fs.hash, ids, order);
    ghost var dev := cache.device.Value();
    var freshCache := new BlockCache(cache.device);
    up := new OxideFs(fs.hash);
    ghost var end;
    r, end := up.LoadFromDisk(freshCache);
    CleanReads(CacheModel.Store(map[], 0, dev), end);
    EmptyCacheSeesDisk(dev, fs.hash);
    RestartOutcome(s, fs.Value(), fs.hash, order);
  }

  lemma ImageOfValid(fs: FsModel.Fs, h: FsModel.Hash, ids: seq<nat>, order: seq<Path>)
    requires FsModel.FsInv(fs, h) && Lists(fs, ids) && Visits(fs, order)
    ensures Writable(fs, order) && ImageOf(fs, ids, order) == Image(fs, order)
  {
    hide ImageOf, Image, Lists, Visits, FsModel.HashesInv, FsModel.IndexInv, FsModel.DedupInv;
    ImageOfWritable(fs, ids, order);
  }

  // Reading through a cache without dirty blocks leaves the device alone.
  lemma {:induction false} CleanReads(s: CacheModel.Store, k: nat)
    requires forall n :: n in s.cache ==> !s.cache[n].dirty
    ensures var t := Run(s, Reads(k)); t.dev == s.dev && forall n :: n in t.cache ==> !t.cache[n].dirty
  {
    if k == 0 {
      ReadNothing(s);
    } else {
      CleanReads(s, k - 1);
      ReadOneMore(s, k - 1);
      hide Run, Reads;
    }
  }

  lemma EmptyCacheSeesDisk(dev: CacheModel.Device, h: FsModel.Hash)
    ensures var t := CacheModel.Store(map[], 0, dev);
      Load(Scan(t), h, FsModel.EMPTY) == Load(Contents(t), h, FsModel.EMPTY)
  {
    hide Load, Scan, Contents;
    var t := CacheModel.Store(map[], 0, dev);
    ScanSteady(t);
    LoadSame(Scan(t), Contents(t), h, FsModel.EMPTY);
  }

  lemma RestartOutcome(s: CacheModel.Store, fs: FsModel.Fs, h: FsModel.Hash, order: seq<Path>)
    requires CacheModel.Inv(s) && FsModel.FsInv(fs, h) && Writable(fs, order)
    ensures var v := Contents(CacheModel.Store(map[], 0, Synced(s, Image(fs, order)).dev));
      && (!s.dev.Accepts(0) ==> Load(v, h, FsModel.EMPTY) == NoFileSystem)
      && (Steady(s) && TakesImage(s.dev, Image(fs, order)) && InRange(fs) ==>
            && Legal(fs, RestartOp(order)) && FsModel.FsInv(FsStep(fs, h, RestartOp(order)), h)
            && Load(v, h, FsModel.EMPTY) == Loaded(FsStep(fs, h, RestartOp(order))))
      && (Steady(s) && TakesImage(s.dev, Image(fs, order)) && FsModel.StringPaths(fs) ==>
            (Load(v, h, FsModel.EMPTY) == Loaded(FsModel.Compacted(fs)) <==> Expressible(fs)))
  {
    ImageNotEmpty(fs, order);
    hide CacheModel.Inv, Load, Image, Holds, Expressible, FsModel.Compacted, FsModel.StringPaths, Synced;
    hide Contents, InRange, Steady, TakesImage, FsModel.FsInv, FsStep;
    var image := Image(fs, order);
    var v := Contents(CacheModel.Store(map[], 0, Synced(s, image).dev));
    SyncedDevice(s, image);
    if !s.dev.Accepts(0) { SuperblockRefused(Synced(s, image).dev, h, FsModel.EMPTY); }
    if Steady(s) && TakesImage(s.dev, image) {
      SyncedSteady(s, image);
      if InRange(fs) {
        RestartIsReload(v, fs, h, order);
        RestartKeeps(fs, h, order);
      }
      if FsModel.StringPaths(fs) { RoundTripIffExpressible(v, fs, h, order); }
    }
  }

  lemma ImageNotEmpty(fs: FsModel.Fs, order: seq<Path>)
    requires Writable(fs, order)
    ensures Image(fs, order) != []
  {
  }

  ////////////// A disk that refuses a block //////////////

  // The cache holds exactly these blocks, all dirty, and the device is untouched.
  ghost predicate CachedOnly(dev: CacheModel.Device, t: CacheModel.Store, bs: seq<Block>) {
    && t.dev == dev && |t.cache| == |bs| && (forall n: nat :: n in t.cache <==> n < |bs|)
    && forall n: nat :: n < |bs| ==> CacheModel.Dirty(t, n) && t.cache[n].data == bs[n]
  }

  lemma NothingCached(s: CacheModel.Store)
    requires s.cache == map[]
    ensures CachedOnly(s.dev, s, [])
  {
  }

  lemma OneMoreCached(dev: CacheModel.Device, t: CacheModel.Store, bs: seq<Block>, b: Block)
    requires CachedOnly(dev, t, bs) && |bs| < CacheModel.CACHE_SIZE
    ensures CachedOnly(dev, CacheModel.Write(t, |bs|, b), bs + [b])
  {
    MapInsertSize(t.cache, |bs|, CacheModel.CachedBlock(b, true, t.counter + 1));
    hide CacheModel.EvictOne;
  }

  // Up to 256 blocks written through an empty cache stay there.
  lemma {:induction false} WroteCached(s: CacheModel.Store, bs: seq<Block>)
    requires s.cache == map[] && |bs| <= CacheModel.CACHE_SIZE
    ensures CachedOnly(s.dev, Run(s, Writes(0, bs)), bs)
  {
    hide CachedOnly, Run, Writes, CacheModel.Write;
    if bs == [] {
      WroteNothing(s, 0);
      NothingCached(s);
    } else {
      var rest, b := bs[..|bs| - 1], bs[|bs| - 1];
      assert bs == rest + [b];
      WroteCached(s, rest);
      WroteMore(s, 0, rest, [b]);
      WroteOne(Run(s, Writes(0, rest)), |rest|, b);
      OneMoreCached(s.dev, Run(s, Writes(0, rest)), rest, b);
    }
  }

  lemma FlushReachesBelow(dev: CacheModel.Device, t: CacheModel.Store, bs: seq<Block>, k: nat, n: nat)
    requires CachedOnly(dev, t, bs) && k < |bs| && !dev.Accepts(k) && forall i :: 0 <= i < k ==> dev.Accepts(i)
    ensures CacheModel.FlushReaches(t, n) <==> n < k
  {
    if n >= k {
      assert CacheModel.Dirty(t, k);
    } else {
      assert CacheModel.Dirty(t, n);
    }
  }

  // A flush stops at the first block the disk refuses: of an image that fits the cache, exactly the
  // blocks before that one reach the disk.
  lemma RefusedCutsImage(s: CacheModel.Store, image: seq<Block>, k: nat)
    requires s.cache == map[] && k < |image| <= CacheModel.CACHE_SIZE
    requires !s.dev.Accepts(k) && forall n :: 0 <= n < k ==> s.dev.Accepts(n)
    ensures k <= |s.dev.blocks| && Synced(s, image).dev.blocks == image[..k] + s.dev.blocks[k..]
  {
    hide Run, Writes, CacheModel.FlushReaches, CacheModel.FlushSucceeds;
    WroteCached(s, image);
    var t := Run(s, Writes(0, image));
    assert k > 0 ==> s.dev.Accepts(k - 1);
    forall n: nat ensures CacheModel.FlushReaches(t, n) <==> n < k { FlushReachesBelow(s.dev, t, image, k, n); }
    assert t.dev == s.dev && forall n: nat :: n < k ==> n in t.cache && t.cache[n].data == image[n];
    hide CachedOnly;
    var written := CacheModel.FlushedDevice(t).blocks;
    forall n | 0 <= n < |s.dev.blocks| ensures written[n] == (image[..k] + s.dev.blocks[k..])[n] {
      assert CacheModel.FlushReaches(t, n) <==> n < k;
    }
  }
}
