// Reading an image back restores the file system exactly when the format can express it.
module DiskRoundTrip {
  import opened Bytes
  import opened Collections
  import opened Utf8Text
  import opened FsModel
  import opened DiskFormat

  // What the format can express: 32-bit counts and sizes, and paths of at most 255 bytes.
  ghost predicate Expressible(fs: Fs) {
    && |fs.blobs| < TWO_32
    && |LivePaths(fs)| < TWO_32
    && (forall id :: id in fs.blobs ==> |fs.blobs[id]| < TWO_32)
    && (forall p :: Live(fs, p) ==> |p| <= MAX_PATH)
  }

  ////////////// Blobs //////////////

  // The first n blobs are back, in a file system that had none.
  ghost predicate BlobsBack(fs: Fs, g: Fs, blobs: Blobs, h: Hash, n: nat) {
    && (forall id: nat :: id in g.blobs <==> 1 <= id <= n)
    && (forall id: nat :: id in g.blobs ==> id in blobs && g.blobs[id] == blobs[id])
    && HashesInv(g.blobs, g.contentHashes, h)
    && g == fs.(blobs := g.blobs, contentHashes := g.contentHashes)
  }

  lemma NextBlobBack(fs: Fs, g: Fs, blobs: Blobs, h: Hash, n: nat)
    requires n >= 1 && BlobsBack(fs, g, blobs, h, n - 1) && n in blobs
    ensures BlobsBack(fs, g.(contentHashes := g.contentHashes[h(blobs[n]) := n], blobs := g.blobs[n := blobs[n]]), blobs, h, n)
  {
    NewHash(g.blobs, g.contentHashes, h, n, blobs[n]);
  }

  lemma LoadNextBlob(v: Disk, h: Hash, fs: Fs, pr: Progress, blobs: Blobs, n: nat)
    requires n >= 1 && BlobsBack(fs, pr.fs, blobs, h, n - 1)
    requires n in blobs && |blobs[n]| < TWO_32 && n < TWO_64 && Holds(v, pr.at, BlobBlocks(n, blobs[n]))
    ensures LoadBlob(v, h, pr).at == pr.at + |BlobBlocks(n, blobs[n])|
    ensures BlobsBack(fs, LoadBlob(v, h, pr).fs, blobs, h, n)
  {
    NextBlobBack(fs, pr.fs, blobs, h, n);
    BlobRoundTrip(v, pr.at, n, blobs[n]);
  }

  ghost predicate BlobsFit(blobs: Blobs, n: nat) {
    n < TWO_64 && forall id :: 1 <= id <= n ==> id in blobs && |blobs[id]| < TWO_32
  }

  lemma {:induction false} BlobAreaRoundTrip(v: Disk, h: Hash, fs: Fs, blobs: Blobs, n: nat)
    requires fs.blobs == map[] && fs.contentHashes == map[]
    requires BlobsFit(blobs, n) && Holds(v, 1, BlobArea(blobs, n))
    ensures LoadBlobs(v, h, fs, n).at == 1 + |BlobArea(blobs, n)|
    ensures BlobsBack(fs, LoadBlobs(v, h, fs, n).fs, blobs, h, n)
  {
    hide LoadBlob, BlobBlocks, Holds;
    if n > 0 {
      var before, last := BlobArea(blobs, n - 1), BlobBlocks(n, blobs[n]);
      assert BlobArea(blobs, n) == before + last;
      HoldsSplit(v, 1, before, last);
      BlobAreaRoundTrip(v, h, fs, blobs, n - 1);
      LoadNextBlob(v, h, fs, LoadBlobs(v, h, fs, n - 1), blobs, n);
    }
  }

  // The blobs determine the hash table.
  lemma HashesUnique(blobs: Blobs, a: map<nat, nat>, b: map<nat, nat>, h: Hash)
    requires HashesInv(blobs, a, h) && HashesInv(blobs, b, h)
    ensures a == b
  {
    assert forall k :: k in a ==> k in b && a[k] <= b[k];
    assert forall k :: k in b ==> k in a && b[k] <= a[k];
  }

  lemma {:induction false} IdsCount(blobs: Blobs, n: nat)
    requires forall id: nat :: id in blobs <==> 1 <= id <= n
    ensures |blobs| == n
  {
    if n == 0 {
      assert blobs == map[];
    } else {
      MapRemoveSize(blobs, n);
      IdsCount(blobs - {n}, n - 1);
    }
  }

  lemma {:induction false} SumSizesBound(blobs: Blobs, n: nat)
    requires forall id :: id in blobs ==> |blobs[id]| < TWO_32
    ensures SumSizes(blobs, n) <= n * (TWO_32 - 1)
  {
    if n > 0 { SumSizesBound(blobs, n - 1); }
  }

  ghost predicate BlobsBounded(fs: Fs, n: nat) {
    |fs.blobs| <= n && forall id :: id in fs.blobs ==> |fs.blobs[id]| < TWO_32
  }

  lemma LoadBlobBound(v: Disk, h: Hash, pr: Progress, n: nat)
    requires BlobsBounded(pr.fs, n)
    ensures BlobsBounded(LoadBlob(v, h, pr).fs, n + 1) && LoadBlob(v, h, pr).fs.index == pr.fs.index
  {
    FieldWidths();
    var id, data := BlobId(Fetch(v, pr.at)), ParseBlob(v, pr.at);
    assert |data| < TWO_32;
    MapInsertSize(pr.fs.blobs, id, data);
  }

  // Whatever is on the disk, n blob records yield at most n blobs, each below 4 GiB.
  lemma {:induction false} LoadBlobsBound(v: Disk, h: Hash, fs: Fs, n: nat)
    requires fs.blobs == map[]
    ensures BlobsBounded(LoadBlobs(v, h, fs, n).fs, n)
    ensures LoadBlobs(v, h, fs, n).fs.index == fs.index
  {
    hide LoadBlob;
    if n > 0 {
      LoadBlobsBound(v, h, fs, n - 1);
      LoadBlobBound(v, h, LoadBlobs(v, h, fs, n - 1), n - 1);
    }
  }

  ////////////// Index //////////////

  ghost predicate EntriesFit(index: map<Path, FileEntry>, order: seq<Path>) {
    forall p :: p in order ==> p in index && index[p].blobId < TWO_64 && index[p].size < TWO_64
  }

  // What is read back from the block of an entry: its path is cut to 255 bytes.
  function Reloaded(p: Path, e: FileEntry): FileEntry {
    e.(path := p[..Min(|p|, MAX_PATH)], deleted := false)
  }

  lemma IndexAreaLast(v: Disk, at: nat, index: map<Path, FileEntry>, order: seq<Path>)
    requires order != [] && EntriesFit(index, order) && Holds(v, at, IndexArea(index, order))
    ensures order[|order| - 1] in order && EntriesFit(index, order[..|order| - 1])
    ensures Holds(v, at, IndexArea(index, order[..|order| - 1]))
    ensures ParseEntry(Fetch(v, at + |order| - 1)) == Some(Reloaded(order[|order| - 1], index[order[|order| - 1]]))
  {
    hide EntryBlock, ParseEntry, Holds, Fetch;
    var rest, p := order[..|order| - 1], order[|order| - 1];
    assert p in order && forall q :: q in rest ==> q in order;
    IndexAreaLength(index, rest);
    var last := EntryBlock(p, index[p]);
    HoldsSplit(v, at, IndexArea(index, rest), [last]);
    assert [last] == [last] + [];
    HoldsFirst(v, at + |rest|, last, []);
    assert Fetch(v, at + |order| - 1) == last;
    EntryRoundTrip(p, index[p]);
  }

  lemma {:induction false} IndexAreaLength(index: map<Path, FileEntry>, order: seq<Path>)
    requires forall p :: p in order ==> p in index
    ensures |IndexArea(index, order)| == |order|
  {
    if order != [] { IndexAreaLength(index, order[..|order| - 1]); }
  }

  // What becomes of a path: it is cut to 255 bytes, and to nothing when that splits a character.
  function Cut(p: Path): Path {
    FromUtf8(p[..Min(|p|, MAX_PATH)])
  }

  // The index as it comes back: each entry under its cut path, later ones over earlier ones.
  function Reindexed(index: map<Path, FileEntry>, order: seq<Path>): map<Path, FileEntry>
    requires forall p :: p in order ==> p in index
  {
    if order == [] then map[]
    else
      var p := order[|order| - 1];
      Reindexed(index, order[..|order| - 1])[Cut(p) := Reloaded(p, index[p]).(path := Cut(p))]
  }

  lemma {:induction false} ReindexedShort(index: map<Path, FileEntry>, order: seq<Path>)
    requires forall p :: p in order ==> p in index
    ensures forall p :: p in Reindexed(index, order) ==> |p| <= MAX_PATH
  {
    hide Utf8;
    if order != [] { ReindexedShort(index, order[..|order| - 1]); }
  }

  // An index area is always readable.
  lemma {:induction false} IndexAreaReads(v: Disk, fs: Fs, at: nat, index: map<Path, FileEntry>, order: seq<Path>)
    requires fs.index == map[] && EntriesFit(index, order) && Holds(v, at, IndexArea(index, order))
    ensures LoadEntries(v, fs, at, |order|).Some?
    ensures LoadEntries(v, fs, at, |order|).value == fs.(index := Reindexed(index, order))
  {
    hide EntryBlock, ParseEntry, Holds, Fetch, IndexArea, Utf8;
    if order != [] {
      IndexAreaLast(v, at, index, order);
      IndexAreaReads(v, fs, at, index, order[..|order| - 1]);
    }
  }

  ghost predicate EntriesBack(fs: Fs, g: Fs, index: map<Path, FileEntry>, order: seq<Path>) {
    && (forall p: Path :: p in g.index <==> p in order)
    && (forall p: Path :: p in g.index ==> p in index && g.index[p] == index[p])
    && g == fs.(index := g.index)
  }

  lemma NextEntryBack(fs: Fs, g: Fs, index: map<Path, FileEntry>, order: seq<Path>, p: Path)
    requires EntriesBack(fs, g, index, order) && p in index && index[p].path == p && Utf8(p)
    ensures EntriesBack(fs, LoadEntry(g, index[p]), index, order + [p])
  {
  }

  lemma {:induction false} IndexAreaRoundTrip(v: Disk, fs: Fs, at: nat, index: map<Path, FileEntry>, order: seq<Path>)
    requires fs.index == map[] && EntriesFit(index, order) && Holds(v, at, IndexArea(index, order))
    requires forall p :: p in order ==> Reloaded(p, index[p]) == index[p] && index[p].path == p && Utf8(p)
    ensures LoadEntries(v, fs, at, |order|).Some?
    ensures EntriesBack(fs, LoadEntries(v, fs, at, |order|).value, index, order)
  {
    hide EntryBlock, ParseEntry, Holds, Fetch, IndexArea, Utf8, LoadEntry;
    if order != [] {
      var rest, p := order[..|order| - 1], order[|order| - 1];
      IndexAreaLast(v, at, index, order);
      assert order == rest + [p];
      IndexAreaRoundTrip(v, fs, at, index, rest);
      NextEntryBack(fs, LoadEntries(v, fs, at, |rest|).value, index, rest, p);
    }
  }

  // Whatever is on the disk, n index records yield at most n entries.
  lemma {:induction false} LoadEntriesBound(v: Disk, fs: Fs, at: nat, n: nat)
    requires fs.index == map[] && LoadEntries(v, fs, at, n).Some?
    ensures |LoadEntries(v, fs, at, n).value.index| <= n
    ensures LoadEntries(v, fs, at, n).value.blobs == fs.blobs
  {
    hide ParseEntry, Fetch, Utf8;
    if n > 0 {
      LoadEntriesBound(v, fs, at, n - 1);
      var e := ParseEntry(Fetch(v, at + n - 1)).value;
      var path := FromUtf8(e.path);
      MapInsertSize(LoadEntries(v, fs, at, n - 1).value.index, path, e.(path := path));
    }
  }

  ////////////// The whole image //////////////

  // The image as it was written: superblock, blobs, index, at their places on the disk.
  lemma ImageParts(v: Disk, fs: Fs, order: seq<Path>)
    requires Writable(fs, order) && Holds(v, 0, Image(fs, order))
    ensures v != [] && Fetch(v, 0) == SuperBlock(fs, |order|)
    ensures Holds(v, 1, BlobArea(fs.blobs, fs.nextBlobId - 1))
    ensures Holds(v, 1 + |BlobArea(fs.blobs, fs.nextBlobId - 1)|, IndexArea(fs.index, order))
  {
    hide SuperBlock, BlobArea, IndexArea, Holds, Fetch;
    HoldsThree(v, SuperBlock(fs, |order|), BlobArea(fs.blobs, fs.nextBlobId - 1), IndexArea(fs.index, order));
  }

  lemma HoldsThree(v: Disk, sb: Block, bs: seq<Block>, ix: seq<Block>)
    requires Holds(v, 0, [sb] + bs + ix)
    ensures v != [] && Fetch(v, 0) == sb && Holds(v, 1, bs) && Holds(v, 1 + |bs|, ix)
  {
    assert v != [];
    hide Holds, Fetch;
    assert [sb] + bs + ix == [sb] + (bs + ix);
    HoldsFirst(v, 0, sb, bs + ix);
    HoldsSplit(v, 1, bs, ix);
  }

  lemma LiveCount(fs: Fs, order: seq<Path>)
    requires Visits(fs, order)
    ensures |order| == |LivePaths(fs)|
  {
    DistinctSize(order);
    assert LivePaths(fs) == Elements(order);
  }

  // 32-bit counts and sizes keep the 64-bit fields in range.
  lemma FieldsInRange(fs: Fs, h: Hash)
    requires FsInv(fs, h) && |fs.blobs| < TWO_32 && forall id :: id in fs.blobs ==> |fs.blobs[id]| < TWO_32
    ensures |fs.blobs| == fs.nextBlobId - 1 && fs.totalBytes < TWO_64
    ensures forall p :: p in fs.index ==> fs.index[p].blobId < TWO_64 && fs.index[p].size < TWO_64
  {
    IdsCount(fs.blobs, fs.nextBlobId - 1);
    SumSizesBound(fs.blobs, fs.nextBlobId - 1);
    assert (fs.nextBlobId - 1) * (TWO_32 - 1) <= TWO_32 * (TWO_32 - 1);
    forall p | p in fs.index ensures fs.index[p].blobId < TWO_64 && fs.index[p].size < TWO_64 {
      assert EntryOk(fs.index[p], p, fs.blobs);
    }
  }

  // The blobs and the counters always come back when the counts and sizes fit.
  lemma LoadsBlobs(v: Disk, fs: Fs, h: Hash, order: seq<Path>)
    requires FsInv(fs, h) && Writable(fs, order) && Holds(v, 0, Image(fs, order)) && |order| < TWO_32
    requires |fs.blobs| < TWO_32 && forall id :: id in fs.blobs ==> |fs.blobs[id]| < TWO_32
    ensures v != [] && v[0][0..8] == MAGIC && FromLe(v[0][16..20]) == |order|
    ensures LoadBlobs(v, h, LoadSuper(EMPTY, v[0]), FromLe(v[0][12..16])) ==
      Progress(fs.(index := map[]), 1 + |BlobArea(fs.blobs, fs.nextBlobId - 1)|)
  {
    hide ToLe, FromLe, Pow256, Holds, Image, SuperBlock, BlobArea, LoadBlob, Visits;
    var n := fs.nextBlobId - 1;
    ImageParts(v, fs, order);
    SuperBlockLayout(fs, |order|);
    FieldsInRange(fs, h);
    FieldWidths();
    LeRoundTrip(|fs.blobs|, 4);
    LeRoundTrip(|order|, 4);
    LeRoundTrip(fs.nextBlobId, 8);
    LeRoundTrip(fs.totalBytes, 8);
    var g := LoadSuper(EMPTY, v[0]);
    BlobAreaRoundTrip(v, h, g, fs.blobs, n);
    var pr := LoadBlobs(v, h, g, n);
    assert pr.fs.blobs == fs.blobs;
    HashesUnique(fs.blobs, pr.fs.contentHashes, fs.contentHashes, h);
  }

  lemma ExpressibleRestored(v: Disk, fs: Fs, h: Hash, order: seq<Path>)
    requires FsInv(fs, h) && StringPaths(fs) && Writable(fs, order) && Holds(v, 0, Image(fs, order))
    requires Expressible(fs)
    ensures Load(v, h, EMPTY) == Loaded(Compacted(fs))
  {
    hide ToLe, FromLe, Pow256, Holds, Image, SuperBlock, BlobArea, IndexArea, LoadBlobs, LoadEntries, Utf8, Visits;
    hide FsInv, StringPaths, Fetch, EntriesBack;
    LiveCount(fs, order);
    LoadsBlobs(v, fs, h, order);
    ImageParts(v, fs, order);
    var g, at := fs.(index := map[]), 1 + |BlobArea(fs.blobs, fs.nextBlobId - 1)|;
    LiveReloaded(fs, h, order);
    IndexAreaRoundTrip(v, g, at, fs.index, order);
    EntriesCompacted(fs, LoadEntries(v, g, at, |order|).value, order);
  }

  lemma LiveReloaded(fs: Fs, h: Hash, order: seq<Path>)
    requires FsInv(fs, h) && StringPaths(fs) && Visits(fs, order) && Expressible(fs)
    ensures forall p :: p in order ==>
      p in fs.index && Reloaded(p, fs.index[p]) == fs.index[p] && fs.index[p].path == p && Utf8(p)
    ensures EntriesFit(fs.index, order)
  {
    hide Utf8;
    FieldsInRange(fs, h);
    forall p | p in order
      ensures p in fs.index && Reloaded(p, fs.index[p]) == fs.index[p] && fs.index[p].path == p
    {
      assert Live(fs, p) && EntryOk(fs.index[p], p, fs.blobs);
      assert p[..|p|] == p;
    }
  }

  lemma EntriesCompacted(fs: Fs, g: Fs, order: seq<Path>)
    requires Visits(fs, order) && EntriesBack(fs.(index := map[]), g, fs.index, order)
    ensures g == Compacted(fs)
  {
    assert forall p: Path :: p in g.index <==> Live(fs, p);
    assert g.index == Compacted(fs).index;
  }

  // What was read back has its counts and sizes from 32-bit fields.
  lemma RestoredCounts(v: Disk, fs: Fs, h: Hash)
    requires v != [] && Load(v, h, EMPTY) == Loaded(Compacted(fs))
    ensures |fs.blobs| < TWO_32 && |LivePaths(fs)| < TWO_32
    ensures forall id :: id in fs.blobs ==> |fs.blobs[id]| < TWO_32
  {
    hide ToLe, Pow256, LoadBlobs, LoadEntries;
    FieldWidths();
    var sb := v[0];
    var n, m := FromLe(sb[12..16]), FromLe(sb[16..20]);
    LoadBlobsBound(v, h, LoadSuper(EMPTY, sb), n);
    var pr := LoadBlobs(v, h, LoadSuper(EMPTY, sb), n);
    LoadEntriesBound(v, pr.fs, pr.at, m);
    assert Compacted(fs).index.Keys == LivePaths(fs);
  }

  // As long as counts and sizes are in range, this is what comes back, long paths or not.
  lemma ReloadOutcome(v: Disk, fs: Fs, h: Hash, order: seq<Path>)
    requires FsInv(fs, h) && Writable(fs, order) && Holds(v, 0, Image(fs, order))
    requires |fs.blobs| < TWO_32 && |order| < TWO_32 && forall id :: id in fs.blobs ==> |fs.blobs[id]| < TWO_32
    ensures Load(v, h, EMPTY) == Loaded(fs.(index := Reindexed(fs.index, order)))
  {
    hide ToLe, Pow256, Holds, Image, SuperBlock, BlobArea, IndexArea, LoadBlobs, LoadEntries, FromLe, Reindexed, Utf8;
    LoadsBlobs(v, fs, h, order);
    ImageParts(v, fs, order);
    FieldsInRange(fs, h);
    var g, at := fs.(index := map[]), 1 + |BlobArea(fs.blobs, fs.nextBlobId - 1)|;
    assert EntriesFit(fs.index, order) by {
      assert forall p :: p in order ==> Live(fs, p);
    }
    IndexAreaReads(v, g, at, fs.index, order);
  }

  lemma RestoredExpressible(v: Disk, fs: Fs, h: Hash, order: seq<Path>)
    requires FsInv(fs, h) && Writable(fs, order) && Holds(v, 0, Image(fs, order))
    requires Load(v, h, EMPTY) == Loaded(Compacted(fs))
    ensures Expressible(fs)
  {
    hide Holds, Image, BlobArea, IndexArea, FsInv, Load, Fetch;
    ImageParts(v, fs, order);
    RestoredCounts(v, fs, h);
    LiveCount(fs, order);
    ReloadOutcome(v, fs, h, order);
    ReindexedShort(fs.index, order);
    hide Reindexed;
    assert forall p :: Live(fs, p) ==> p in Compacted(fs).index;
  }

  // The round trip: reading back the image of a reachable file system restores the same blobs,
  // hash table and counters and exactly the entries not deleted, whatever else is on the disk and
  // in whatever order entries were written, if and only if the format can express it.
  lemma RoundTripIffExpressible(v: Disk, fs: Fs, h: Hash, order: seq<Path>)
    requires FsInv(fs, h) && StringPaths(fs) && Writable(fs, order) && Holds(v, 0, Image(fs, order))
    ensures Load(v, h, EMPTY) == Loaded(Compacted(fs)) <==> Expressible(fs)
  {
    if Expressible(fs) { ExpressibleRestored(v, fs, h, order); }
    if Load(v, h, EMPTY) == Loaded(Compacted(fs)) { RestoredExpressible(v, fs, h, order); }
  }

  // The condition bites: a single file with a path of more than 255 bytes comes back under the path
  // cut to 255 bytes, or under no path at all when that splits a character, and not under its own.
  lemma LongPathLost(v: Disk, h: Hash, path: Path, data: seq<byte>, tick: u64)
    requires |path| > MAX_PATH && |data| < TWO_32 && Writable(WriteFile(EMPTY, h, path, data, tick), [path])
    requires Holds(v, 0, Image(WriteFile(EMPTY, h, path, data, tick), [path]))
    ensures var cut := if Utf8(path[..MAX_PATH]) then path[..MAX_PATH] else [];
      var fs := EMPTY.(blobs := map[1 := data], contentHashes := map[h(data) := 1], nextBlobId := 2, totalBytes := |data|,
                       index := map[cut := FileEntry(cut, 1, |data|, tick, tick, false)]);
      Load(v, h, EMPTY) == Loaded(fs) && ReadFile(fs, path).None? && ReadFile(fs, cut) == Some(data)
  {
    hide Load, Image, Holds, Utf8;
    var fs := WriteFile(EMPTY, h, path, data, tick);
    assert FsInv(fs, h) by { WriteFileStep(EMPTY, h, path, data, tick); }
    ReloadOutcome(v, fs, h, [path]);
    assert [path][..0] == [];
    assert Reindexed(fs.index, []) == map[];
  }
}
