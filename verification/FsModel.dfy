// The deduplicating file system as a value, for an arbitrary content hash.
module FsModel {
  import opened Bytes
  import opened Utf8Text

  // The UTF-8 bytes of a path.
  type Path = seq<byte>

  datatype FileEntry = FileEntry(path: Path, blobId: nat, size: nat, created: u64, modified: u64, deleted: bool)

  datatype Fs = Fs(index: map<Path, FileEntry>, blobs: map<nat, seq<byte>>, contentHashes: map<nat, nat>,
                   nextBlobId: nat, totalBytes: nat)

  type Hash = seq<byte> -> nat

  const EMPTY: Fs := Fs(map[], map[], map[], 1, 0)

  // The blob the hash table offers for this content, if its bytes really match.
  predicate Stored(fs: Fs, h: Hash, data: seq<byte>) {
    && h(data) in fs.contentHashes
    && fs.contentHashes[h(data)] in fs.blobs
    && fs.blobs[fs.contentHashes[h(data)]] == data
  }

  function BlobFor(fs: Fs, h: Hash, data: seq<byte>): nat {
    if Stored(fs, h, data) then fs.contentHashes[h(data)] else fs.nextBlobId
  }

  function AddBlob(fs: Fs, h: Hash, data: seq<byte>): Fs {
    if Stored(fs, h, data) then fs
    else fs.(blobs := fs.blobs[fs.nextBlobId := data],
             contentHashes := fs.contentHashes[h(data) := fs.nextBlobId],
             nextBlobId := fs.nextBlobId + 1,
             totalBytes := fs.totalBytes + |data|)
  }

  function WriteFile(fs: Fs, h: Hash, path: Path, data: seq<byte>, tick: u64): Fs {
    var g := AddBlob(fs, h, data);
    g.(index := g.index[path := FileEntry(path, BlobFor(fs, h, data), |data|, tick, tick, false)])
  }

  predicate Live(fs: Fs, path: Path) {
    path in fs.index && !fs.index[path].deleted
  }

  function ReadFile(fs: Fs, path: Path): Option<seq<byte>> {
    if Live(fs, path) && fs.index[path].blobId in fs.blobs then Some(fs.blobs[fs.index[path].blobId]) else None
  }

  function DeleteFile(fs: Fs, path: Path): Fs {
    if path in fs.index then fs.(index := fs.index[path := fs.index[path].(deleted := true)]) else fs
  }

  function LivePaths(fs: Fs): set<Path> {
    set p | p in fs.index && Live(fs, p)
  }

  function LiveUnder(fs: Fs, prefix: seq<byte>): set<Path> {
    set p | p in LivePaths(fs) && prefix <= p
  }

  // The file system without the entries marked deleted.
  function Compacted(fs: Fs): Fs {
    fs.(index := map p | p in LivePaths(fs) :: fs.index[p])
  }

  ////////////// The invariant of every reachable file system //////////////

  function SumSizes(blobs: Blobs, n: nat): nat {
    if n == 0 then 0 else SumSizes(blobs, n - 1) + if n in blobs then |blobs[n]| else 0
  }

  type Blobs = map<nat, seq<byte>>

  ghost predicate BlobsInv(blobs: Blobs, next: nat, total: nat) {
    && next >= 1
    && (forall id: nat :: id in blobs <==> 1 <= id < next)
    && total == SumSizes(blobs, next - 1)
  }

  // Each hash is mapped to the newest blob with that hash.
  ghost predicate HashesInv(blobs: Blobs, hashes: map<nat, nat>, h: Hash) {
    && (forall k :: k in hashes ==> hashes[k] in blobs && h(blobs[hashes[k]]) == k)
    && (forall id :: id in blobs ==> h(blobs[id]) in hashes && id <= hashes[h(blobs[id])])
  }

  ghost predicate EntryOk(e: FileEntry, p: Path, blobs: Blobs) {
    e.path == p && e.blobId in blobs && e.size == |blobs[e.blobId]|
  }

  ghost predicate IndexInv(index: map<Path, FileEntry>, blobs: Blobs) {
    forall p :: p in index ==> EntryOk(index[p], p, blobs)
  }

  // Blob k has the hash of blob i but other bytes.
  ghost predicate Collides(blobs: Blobs, h: Hash, i: nat, k: nat) {
    i in blobs && k in blobs && blobs[k] != blobs[i] && h(blobs[k]) == h(blobs[i])
  }

  // Blobs i and j are different blobs with the same bytes.
  ghost predicate Twice(blobs: Blobs, i: nat, j: nat) {
    i in blobs && j in blobs && i < j && blobs[i] == blobs[j]
  }

  // Content is stored twice only when a colliding blob came in between.
  ghost predicate DedupInv(blobs: Blobs, h: Hash) {
    forall i: nat, j: nat :: Twice(blobs, i, j) ==> exists k :: i < k < j && Collides(blobs, h, i, k)
  }

  ghost predicate FsInv(fs: Fs, h: Hash) {
    && BlobsInv(fs.blobs, fs.nextBlobId, fs.totalBytes)
    && HashesInv(fs.blobs, fs.contentHashes, h)
    && IndexInv(fs.index, fs.blobs)
    && DedupInv(fs.blobs, h)
  }

  // Blobs are never changed or removed.
  ghost predicate Extends(blobs: Blobs, more: Blobs) {
    forall id :: id in blobs ==> id in more && more[id] == blobs[id]
  }

  lemma {:induction false} SumSizesGrow(blobs: Blobs, id: nat, data: seq<byte>, n: nat)
    requires n < id
    ensures SumSizes(blobs[id := data], n) == SumSizes(blobs, n)
  {
    if n > 0 { SumSizesGrow(blobs, id, data, n - 1); }
  }

  lemma NewBlob(blobs: Blobs, next: nat, total: nat, data: seq<byte>)
    requires BlobsInv(blobs, next, total)
    ensures BlobsInv(blobs[next := data], next + 1, total + |data|)
  {
    SumSizesGrow(blobs, next, data, next - 1);
  }

  lemma NewHash(blobs: Blobs, hashes: map<nat, nat>, h: Hash, next: nat, data: seq<byte>)
    requires HashesInv(blobs, hashes, h) && forall id :: id in blobs ==> id < next
    ensures HashesInv(blobs[next := data], hashes[h(data) := next], h)
  {
  }

  lemma NewBlobDedup(blobs: Blobs, hashes: map<nat, nat>, h: Hash, next: nat, data: seq<byte>)
    requires HashesInv(blobs, hashes, h) && DedupInv(blobs, h) && forall id :: id in blobs ==> id < next
    requires h(data) in hashes ==> blobs[hashes[h(data)]] != data
    ensures DedupInv(blobs[next := data], h)
  {
    var more := blobs[next := data];
    forall i, j | Twice(more, i, j)
      ensures exists k :: i < k < j && Collides(more, h, i, k)
    {
      if j != next {
        assert Twice(blobs, i, j);
        var k :| i < k < j && Collides(blobs, h, i, k);
        assert Collides(more, h, i, k);
      } else {
        var k := hashes[h(blobs[i])];
        assert k != i;
        assert i < k < j && Collides(more, h, i, k);
      }
    }
  }

  lemma NewEntry(index: map<Path, FileEntry>, blobs: Blobs, more: Blobs, p: Path, e: FileEntry)
    requires IndexInv(index, blobs) && Extends(blobs, more) && EntryOk(e, p, more)
    ensures IndexInv(index[p := e], more)
  {
    var index' := index[p := e];
    forall q | q in index' ensures EntryOk(index'[q], q, more) {
      if q != p { assert EntryOk(index[q], q, blobs); }
    }
  }

  lemma StoredIffNewest(fs: Fs, h: Hash, data: seq<byte>)
    requires FsInv(fs, h)
    ensures forall id :: id in fs.blobs ==> id < fs.nextBlobId
    ensures h(data) in fs.contentHashes ==>
      fs.contentHashes[h(data)] in fs.blobs && (Stored(fs, h, data) <==> fs.blobs[fs.contentHashes[h(data)]] == data)
  {
    hide IndexInv, DedupInv;
  }

  lemma AddBlobInv(fs: Fs, h: Hash, data: seq<byte>)
    requires FsInv(fs, h)
    ensures var g := AddBlob(fs, h, data);
      && BlobsInv(g.blobs, g.nextBlobId, g.totalBytes)
      && HashesInv(g.blobs, g.contentHashes, h)
      && DedupInv(g.blobs, h) && g.index == fs.index
      && Extends(fs.blobs, g.blobs)
      && BlobFor(fs, h, data) in g.blobs && g.blobs[BlobFor(fs, h, data)] == data
  {
    hide BlobsInv, HashesInv, DedupInv, IndexInv;
    if !Stored(fs, h, data) {
      StoredIffNewest(fs, h, data);
      NewBlob(fs.blobs, fs.nextBlobId, fs.totalBytes, data);
      NewHash(fs.blobs, fs.contentHashes, h, fs.nextBlobId, data);
      NewBlobDedup(fs.blobs, fs.contentHashes, h, fs.nextBlobId, data);
    }
  }

  // A write sets one file, leaves every other file alone and keeps the invariant.
  lemma WriteFileStep(fs: Fs, h: Hash, path: Path, data: seq<byte>, tick: u64)
    requires FsInv(fs, h)
    ensures FsInv(WriteFile(fs, h, path, data, tick), h)
    ensures Extends(fs.blobs, WriteFile(fs, h, path, data, tick).blobs)
    ensures forall p: Path :: ReadFile(WriteFile(fs, h, path, data, tick), p) ==
                              if p == path then Some(data) else ReadFile(fs, p)
  {
    AddBlobInv(fs, h, data);
    var g, w := AddBlob(fs, h, data), WriteFile(fs, h, path, data, tick);
    NewEntry(fs.index, fs.blobs, g.blobs, path, w.index[path]);
    WriteFileReads(fs, g, w, path, w.index[path]);
  }

  lemma WriteFileReads(fs: Fs, g: Fs, w: Fs, path: Path, e: FileEntry)
    requires IndexInv(fs.index, fs.blobs) && g.index == fs.index && Extends(fs.blobs, g.blobs)
    requires w == g.(index := g.index[path := e]) && !e.deleted && e.blobId in g.blobs
    ensures forall p: Path :: ReadFile(w, p) == if p == path then Some(g.blobs[e.blobId]) else ReadFile(fs, p)
  {
    forall p: Path | p != path ensures ReadFile(w, p) == ReadFile(fs, p) {
      if p in fs.index { assert EntryOk(fs.index[p], p, fs.blobs); }
    }
  }

  lemma DeleteFileStep(fs: Fs, h: Hash, path: Path)
    requires FsInv(fs, h)
    ensures FsInv(DeleteFile(fs, path), h) && DeleteFile(fs, path).blobs == fs.blobs
    ensures forall p: Path :: ReadFile(DeleteFile(fs, path), p) == if p == path then None else ReadFile(fs, p)
  {
    if path in fs.index {
      assert EntryOk(fs.index[path], path, fs.blobs);
      NewEntry(fs.index, fs.blobs, fs.blobs, path, fs.index[path].(deleted := true));
    }
  }

  // With a hash that tells the stored contents apart, nothing is ever stored twice.
  lemma InjectiveHashDedups(blobs: Blobs, h: Hash, i: nat, j: nat)
    requires DedupInv(blobs, h)
    requires forall m, n :: m in blobs && n in blobs && h(blobs[m]) == h(blobs[n]) ==> blobs[m] == blobs[n]
    ensures !Twice(blobs, i, j)
  {
    assert forall k :: !Collides(blobs, h, i, k);
  }

  // Forgetting the entries marked deleted changes no file.
  lemma CompactedStep(fs: Fs, h: Hash)
    requires FsInv(fs, h)
    ensures FsInv(Compacted(fs), h) && Compacted(fs).blobs == fs.blobs
    ensures forall p: Path :: ReadFile(Compacted(fs), p) == ReadFile(fs, p)
  {
    var g := Compacted(fs);
    forall p | p in g.index ensures EntryOk(g.index[p], p, g.blobs) { assert EntryOk(fs.index[p], p, fs.blobs); }
    hide BlobsInv, HashesInv, DedupInv;
  }

  ghost predicate StringPaths(fs: Fs) {
    forall p :: p in fs.index ==> Utf8(p)
  }

  lemma EmptyInv(h: Hash)
    ensures FsInv(EMPTY, h) && StringPaths(EMPTY) && forall p: Path :: ReadFile(EMPTY, p).None?
  {
  }
}
