// The on-disk image of the file system: what is written, how it is read back, and exactly when
// reading back restores what was written.
module DiskFormat {
  import opened Bytes
  import opened Collections
  import opened Utf8Text
  import opened FsModel

  const MAGIC: seq<byte> := [79, 88, 73, 68, 69, 70, 83, 0]  // "OXIDEFS\0"
  const VERSION: nat := 1
  const FIRST_CHUNK: nat := 500
  const MAX_PATH: nat := 255

  ////////////// Writing //////////////

  function SuperBlock(fs: Fs, files: nat): Block {
    Pad(MAGIC + ToLe(VERSION, 4) + ToLe(|fs.blobs|, 4) + ToLe(files, 4) + ToLe(fs.nextBlobId, 8) + ToLe(fs.totalBytes, 8))
  }

  function BlobHead(id: nat, data: seq<byte>): Block {
    Pad(ToLe(id, 8) + ToLe(|data|, 4) + data[..Min(|data|, FIRST_CHUNK)])
  }

  // The continuation blocks of a blob from this offset on.
  function Chunks(data: seq<byte>, offset: nat): seq<Block>
    requires offset <= |data|
    decreases |data| - offset
  {
    if offset == |data| then []
    else
      var c := Min(|data| - offset, BLOCK_SIZE);
      [Pad(data[offset..offset + c])] + Chunks(data, offset + c)
  }

  function BlobBlocks(id: nat, data: seq<byte>): seq<Block> {
    [BlobHead(id, data)] + Chunks(data, Min(|data|, FIRST_CHUNK))
  }

  // Blobs 1 to n, in order.
  function BlobArea(blobs: Blobs, n: nat): seq<Block>
    requires forall id :: 1 <= id <= n ==> id in blobs
  {
    if n == 0 then [] else BlobArea(blobs, n - 1) + BlobBlocks(n, blobs[n])
  }

  // The blobs with these ids, in this order.
  function BlobSeq(blobs: Blobs, ids: seq<nat>): seq<Block>
    requires forall id :: id in ids ==> id in blobs
  {
    if ids == [] then []
    else BlobSeq(blobs, ids[..|ids| - 1]) + BlobBlocks(ids[|ids| - 1], blobs[ids[|ids| - 1]])
  }

  lemma {:induction false} AscendingIds(blobs: Blobs, ids: seq<nat>, n: nat)
    requires Ascending(ids) && (forall id: nat :: id in ids <==> 1 <= id <= n) && forall id :: 1 <= id <= n ==> id in blobs
    ensures BlobSeq(blobs, ids) == BlobArea(blobs, n)
  {
    hide BlobBlocks;
    if ids == [] {
      assert n > 0 ==> n in ids;
    } else {
      var rest, last := ids[..|ids| - 1], ids[|ids| - 1];
      AscendingSplit(ids, rest, last);
      assert n in ids;
      AscendingIds(blobs, rest, n - 1);
    }
  }

  function EntryFields(e: FileEntry): (s: seq<byte>)
    ensures |s| == 32
  {
    ToLe(e.blobId, 8) + ToLe(e.size, 8) + ToLe(e.created, 8) + ToLe(e.modified, 8)
  }

  function EntryBlock(path: Path, e: FileEntry): Block {
    var len := Min(|path|, MAX_PATH);
    Pad(ToLe(len, 2) + path[..len] + EntryFields(e))
  }

  function IndexArea(index: map<Path, FileEntry>, order: seq<Path>): seq<Block>
    requires forall p :: p in order ==> p in index
  {
    if order == [] then []
    else
      var p := order[|order| - 1];
      IndexArea(index, order[..|order| - 1]) + [EntryBlock(p, index[p])]
  }

  // `order` is the order in which the live entries are visited.
  ghost predicate Visits(fs: Fs, order: seq<Path>) {
    Distinct(order) && forall p: Path :: p in order <==> Live(fs, p)
  }

  ghost predicate Writable(fs: Fs, order: seq<Path>) {
    && fs.nextBlobId >= 1 && (forall id: nat :: id in fs.blobs <==> 1 <= id < fs.nextBlobId)
    && Visits(fs, order)
  }

  // `ids` are the ids of all blobs, in order.
  ghost predicate Lists(fs: Fs, ids: seq<nat>) {
    Ascending(ids) && forall id: nat :: id in ids <==> id in fs.blobs
  }

  // What is written for any file system, with the invariant or without.
  ghost function ImageOf(fs: Fs, ids: seq<nat>, order: seq<Path>): seq<Block>
    requires Lists(fs, ids) && Visits(fs, order)
  {
    assert forall p :: p in order ==> Live(fs, p);
    [SuperBlock(fs, |order|)] + BlobSeq(fs.blobs, ids) + IndexArea(fs.index, order)
  }

  lemma ImageOfWritable(fs: Fs, ids: seq<nat>, order: seq<Path>)
    requires Writable(fs, order) && Lists(fs, ids)
    ensures ImageOf(fs, ids, order) == Image(fs, order)
  {
    hide SuperBlock, BlobSeq, BlobArea, IndexArea, Visits, Ascending;
    AscendingIds(fs.blobs, ids, fs.nextBlobId - 1);
  }

  function Image(fs: Fs, order: seq<Path>): seq<Block>
    requires Writable(fs, order)
  {
    [SuperBlock(fs, |order|)] + BlobArea(fs.blobs, fs.nextBlobId - 1) + IndexArea(fs.index, order)
  }

  ////////////// Where everything is //////////////

  // The superblock: magic, version 1, counts and counters at their offsets, and zeros.
  lemma SuperBlockLayout(fs: Fs, files: nat)
    ensures var b := SuperBlock(fs, files);
      && b[0..8] == [79, 88, 73, 68, 69, 70, 83, 0] && b[8..12] == ToLe(1, 4)
      && b[12..16] == ToLe(|fs.blobs|, 4) && b[16..20] == ToLe(files, 4)
      && b[20..28] == ToLe(fs.nextBlobId, 8) && b[28..36] == ToLe(fs.totalBytes, 8)
      && forall i :: 36 <= i < 512 ==> b[i] == 0
  {
    hide ToLe;
    var b, head := SuperBlock(fs, files), MAGIC + ToLe(VERSION, 4);
    var mid := ToLe(|fs.blobs|, 4) + ToLe(files, 4);
    var end := ToLe(fs.nextBlobId, 8) + ToLe(fs.totalBytes, 8);
    assert MAGIC + ToLe(VERSION, 4) + ToLe(|fs.blobs|, 4) + ToLe(files, 4) + ToLe(fs.nextBlobId, 8) +
           ToLe(fs.totalBytes, 8) == head + mid + end;
    PadSlices(head, mid, end);
    assert b[0..8] == b[0..12][0..8] && b[8..12] == b[0..12][8..12];
    assert b[12..16] == b[12..20][0..4] && b[16..20] == b[12..20][4..8];
    assert b[20..28] == b[20..36][0..8] && b[28..36] == b[20..36][8..16];
  }

  // The first block of a blob: id, size, up to 500 bytes of data, and zeros.
  lemma BlobHeadLayout(id: nat, data: seq<byte>)
    ensures var b, n := BlobHead(id, data), Min(|data|, 500);
      && b[0..8] == ToLe(id, 8) && b[8..12] == ToLe(|data|, 4) && b[12..12 + n] == data[..n]
      && forall i :: 12 + n <= i < 512 ==> b[i] == 0
  {
    hide ToLe;
    PadSlices(ToLe(id, 8), ToLe(|data|, 4), data[..Min(|data|, 500)]);
  }

  // Every other block of it: the next 512 bytes, the last one filled up with zeros.
  lemma {:induction false} ChunkLayout(data: seq<byte>, offset: nat, k: nat)
    requires offset <= |data| && k < |Chunks(data, offset)|
    ensures offset + 512 * k < |data|
    ensures var b, at := Chunks(data, offset)[k], offset + 512 * k;
      forall i :: 0 <= i < 512 ==> b[i] == if at + i < |data| then data[at + i] else 0
    decreases |data| - offset
  {
    var c := Min(|data| - offset, BLOCK_SIZE);
    if k > 0 { ChunkLayout(data, offset + c, k - 1); }
  }

  // The block of an index entry: path length, path, blob id, size, creation and modification ticks, and
  // zeros.
  lemma EntryLayout(path: Path, e: FileEntry)
    ensures var b, len := EntryBlock(path, e), Min(|path|, 255); var off := 2 + len;
      && b[0..2] == ToLe(len, 2) && b[2..off] == path[..len]
      && b[off..off + 8] == ToLe(e.blobId, 8) && b[off + 8..off + 16] == ToLe(e.size, 8)
      && b[off + 16..off + 24] == ToLe(e.created, 8) && b[off + 24..off + 32] == ToLe(e.modified, 8)
      && forall i :: off + 32 <= i < 512 ==> b[i] == 0
  {
    hide ToLe;
    var b, len := EntryBlock(path, e), Min(|path|, 255);
    var off := 2 + len;
    PadSlices(ToLe(len, 2), path[..len], EntryFields(e));
    Quarters(ToLe(e.blobId, 8), ToLe(e.size, 8), ToLe(e.created, 8), ToLe(e.modified, 8));
    var f := b[off..off + 32];
    assert b[off..off + 8] == f[0..8] && b[off + 8..off + 16] == f[8..16];
    assert b[off + 16..off + 24] == f[16..24] && b[off + 24..off + 32] == f[24..32];
  }

  ////////////// Reading //////////////

  // What the blocks of a disk hold; there are no others.
  type Disk = seq<Block>

  // `cache.read(n).unwrap_or([0; 512])`
  function Fetch(v: Disk, n: nat): Block {
    if n < |v| then v[n] else Zeros(BLOCK_SIZE)
  }

  function ParseChunks(v: Disk, at: nat, remaining: nat): (data: seq<byte>)
    ensures |data| == remaining
    decreases remaining
  {
    if remaining == 0 then []
    else
      var c := Min(remaining, BLOCK_SIZE);
      Fetch(v, at)[..c] + ParseChunks(v, at + 1, remaining - c)
  }

  function ChunkCount(remaining: nat): nat {
    (remaining + BLOCK_SIZE - 1) / BLOCK_SIZE
  }

  function BlobId(b: Block): nat { FromLe(b[0..8]) }

  function BlobSize(b: Block): nat { FromLe(b[8..12]) }

  function ParseBlob(v: Disk, at: nat): (data: seq<byte>)
    ensures |data| == BlobSize(Fetch(v, at))
  {
    var b := Fetch(v, at);
    var first := Min(BlobSize(b), FIRST_CHUNK);
    b[12..12 + first] + ParseChunks(v, at + 1, BlobSize(b) - first)
  }

  function AfterBlob(v: Disk, at: nat): nat {
    var size := BlobSize(Fetch(v, at));
    at + 1 + ChunkCount(size - Min(size, FIRST_CHUNK))
  }

  datatype Progress = Progress(fs: Fs, at: nat)

  function LoadBlob(v: Disk, h: Hash, pr: Progress): Progress {
    var id, data := BlobId(Fetch(v, pr.at)), ParseBlob(v, pr.at);
    Progress(pr.fs.(contentHashes := pr.fs.contentHashes[h(data) := id], blobs := pr.fs.blobs[id := data]),
             AfterBlob(v, pr.at))
  }

  function LoadBlobs(v: Disk, h: Hash, fs: Fs, n: nat): Progress {
    if n == 0 then Progress(fs, 1) else LoadBlob(v, h, LoadBlobs(v, h, fs, n - 1))
  }

  // The entry in this block; None when its path length makes the kernel index past the block.
  function ParseEntry(b: Block): Option<FileEntry> {
    var len := FromLe(b[0..2]);
    if 2 + len + 32 > BLOCK_SIZE then None
    else
      var off := 2 + len;
      Some(ParseFields(b[2..off], b[off..off + 32]))
  }

  function ParseFields(path: Path, s: seq<byte>): FileEntry
    requires |s| == 32
  {
    FieldWidths();
    FileEntry(path, FromLe(s[0..8]), FromLe(s[8..16]), FromLe(s[16..24]), FromLe(s[24..32]), false)
  }

  // The kernel stops on a path length of more than 478.
  lemma EntryRefusedIff(b: Block)
    ensures ParseEntry(b).None? <==> b[0] as int + 256 * (b[1] as int) > 478
  {
    var s := b[0..2];
    assert s[1..] == [b[1]] && s[1..][1..] == [];
    assert FromLe([]) == 0 && FromLe(s[1..]) == b[1] as int;
  }

  // Bytes that are not a string become the empty path.
  function LoadEntry(fs: Fs, e: FileEntry): Fs {
    var path := FromUtf8(e.path);
    fs.(index := fs.index[path := e.(path := path)])
  }

  // None is a kernel panic.
  function LoadEntries(v: Disk, fs: Fs, at: nat, n: nat): Option<Fs> {
    if n == 0 then Some(fs)
    else match LoadEntries(v, fs, at, n - 1)
      case None => None
      case Some(g) =>
        match ParseEntry(Fetch(v, at + n - 1))
        case None => None
        case Some(e) => Some(LoadEntry(g, e))
  }

  datatype LoadOutcome = NoFileSystem | Panic | Loaded(fs: Fs)

  function LoadSuper(fs: Fs, sb: Block): Fs {
    fs.(nextBlobId := FromLe(sb[20..28]), totalBytes := FromLe(sb[28..36]))
  }

  function Load(v: Disk, h: Hash, fs: Fs): LoadOutcome {
    if v == [] || v[0][0..8] != MAGIC then NoFileSystem
    else
      var sb := v[0];
      var pr := LoadBlobs(v, h, LoadSuper(fs, sb), FromLe(sb[12..16]));
      match LoadEntries(v, pr.fs, pr.at, FromLe(sb[16..20]))
      case None => Panic
      case Some(g) => Loaded(g)
  }

  // Nothing is loaded just when there is no first block that starts with "OXIDEFS" and a zero.
  lemma NothingLoadedIff(v: Disk, h: Hash, fs: Fs)
    ensures Load(v, h, fs) == NoFileSystem <==> v == [] || v[0][0..8] != [79, 88, 73, 68, 69, 70, 83, 0]
  {
    hide LoadBlobs, LoadEntries, FromLe;
  }

  ////////////// Loading depends on what is fetched, and on nothing else //////////////

  ghost predicate SameFetch(v: Disk, w: Disk) {
    forall n: nat :: Fetch(v, n) == Fetch(w, n)
  }

  lemma {:induction false} ChunksSame(v: Disk, w: Disk, at: nat, remaining: nat)
    requires SameFetch(v, w)
    ensures ParseChunks(v, at, remaining) == ParseChunks(w, at, remaining)
    decreases remaining
  {
    hide Fetch;
    if remaining > 0 { ChunksSame(v, w, at + 1, remaining - Min(remaining, BLOCK_SIZE)); }
  }

  lemma LoadBlobSame(v: Disk, w: Disk, h: Hash, pr: Progress)
    requires SameFetch(v, w)
    ensures LoadBlob(v, h, pr) == LoadBlob(w, h, pr)
  {
    hide Fetch, FromLe, ParseChunks;
    var size := BlobSize(Fetch(v, pr.at));
    ChunksSame(v, w, pr.at + 1, size - Min(size, FIRST_CHUNK));
  }

  lemma {:induction false} LoadBlobsSame(v: Disk, w: Disk, h: Hash, fs: Fs, n: nat)
    requires SameFetch(v, w)
    ensures LoadBlobs(v, h, fs, n) == LoadBlobs(w, h, fs, n)
  {
    hide SameFetch, LoadBlob;
    if n > 0 {
      LoadBlobsSame(v, w, h, fs, n - 1);
      LoadBlobSame(v, w, h, LoadBlobs(v, h, fs, n - 1));
    }
  }

  lemma {:induction false} LoadEntriesSame(v: Disk, w: Disk, fs: Fs, at: nat, n: nat)
    requires SameFetch(v, w)
    ensures LoadEntries(v, fs, at, n) == LoadEntries(w, fs, at, n)
  {
    hide Fetch, ParseEntry, LoadEntry;
    if n > 0 { LoadEntriesSame(v, w, fs, at, n - 1); }
  }

  // A block of zeros is no superblock.
  lemma NoMagic()
    ensures Zeros(BLOCK_SIZE)[0..8] != MAGIC
  {
    assert Zeros(BLOCK_SIZE)[0..8][0] == 0;
  }

  lemma LoadSame(v: Disk, w: Disk, h: Hash, fs: Fs)
    requires SameFetch(v, w)
    ensures Load(v, h, fs) == Load(w, h, fs)
  {
    hide LoadBlobs, LoadEntries, FromLe, Zeros;
    NoMagic();
    var sb := Fetch(v, 0);
    assert sb == Fetch(w, 0);
    LoadBlobsSame(v, w, h, LoadSuper(fs, sb), FromLe(sb[12..16]));
    var pr := LoadBlobs(v, h, LoadSuper(fs, sb), FromLe(sb[12..16]));
    LoadEntriesSame(v, w, pr.fs, pr.at, FromLe(sb[16..20]));
  }

  ////////////// Round trips, piece by piece //////////////

  // The disk holds these blocks from `at` on.
  ghost predicate Holds(v: Disk, at: nat, blocks: seq<Block>) {
    at + |blocks| <= |v| && v[at..at + |blocks|] == blocks
  }

  lemma HoldsSplit(v: Disk, at: nat, a: seq<Block>, b: seq<Block>)
    requires Holds(v, at, a + b)
    ensures Holds(v, at, a) && Holds(v, at + |a|, b)
  {
    var w := v[at..at + |a + b|];
    assert v[at..at + |a|] == w[..|a|];
    assert v[at + |a|..at + |a| + |b|] == w[|a|..];
  }

  lemma HoldsFirst(v: Disk, at: nat, a: Block, b: seq<Block>)
    requires Holds(v, at, [a] + b)
    ensures Fetch(v, at) == a && Holds(v, at + 1, b)
  {
    HoldsSplit(v, at, [a], b);
    assert v[at] == v[at..at + 1][0];
  }

  lemma ChunkCountNext(n: nat)
    ensures ChunkCount(n) == if n == 0 then 0 else 1 + ChunkCount(n - Min(n, BLOCK_SIZE))
  {
  }

  lemma {:induction false} ChunksRoundTrip(v: Disk, at: nat, data: seq<byte>, offset: nat)
    requires offset <= |data| && Holds(v, at, Chunks(data, offset))
    ensures ParseChunks(v, at, |data| - offset) == data[offset..]
    ensures |Chunks(data, offset)| == ChunkCount(|data| - offset)
    decreases |data| - offset
  {
    hide Holds, Pad, Fetch, ChunkCount;
    ChunkCountNext(|data| - offset);
    if offset < |data| {
      var c := Min(|data| - offset, BLOCK_SIZE);
      var b := Pad(data[offset..offset + c]);
      PadFirst(data[offset..offset + c]);
      HoldsFirst(v, at, b, Chunks(data, offset + c));
      ChunksRoundTrip(v, at + 1, data, offset + c);
      assert Fetch(v, at)[..c] == data[offset..offset + c];
      assert data[offset..] == data[offset..offset + c] + data[offset + c..];
    }
  }

  lemma BlobHeadRoundTrip(id: nat, data: seq<byte>)
    requires id < TWO_64 && |data| < TWO_32
    ensures BlobId(BlobHead(id, data)) == id && BlobSize(BlobHead(id, data)) == |data|
    ensures BlobHead(id, data)[12..12 + Min(|data|, FIRST_CHUNK)] == data[..Min(|data|, FIRST_CHUNK)]
  {
    FieldWidths();
    LeRoundTrip(id, 8);
    LeRoundTrip(|data|, 4);
    PadSlices(ToLe(id, 8), ToLe(|data|, 4), data[..Min(|data|, FIRST_CHUNK)]);
  }

  lemma BlobRoundTrip(v: Disk, at: nat, id: nat, data: seq<byte>)
    requires id < TWO_64 && |data| < TWO_32 && Holds(v, at, BlobBlocks(id, data))
    ensures BlobId(Fetch(v, at)) == id && ParseBlob(v, at) == data
    ensures AfterBlob(v, at) == at + |BlobBlocks(id, data)|
  {
    var first := Min(|data|, FIRST_CHUNK);
    BlobHeadRoundTrip(id, data);
    HoldsFirst(v, at, BlobHead(id, data), Chunks(data, first));
    ChunksRoundTrip(v, at + 1, data, first);
    assert data == data[..first] + data[first..];
  }

  lemma Quarters(a: seq<byte>, b: seq<byte>, c: seq<byte>, d: seq<byte>)
    requires |a| == |b| == |c| == |d| == 8
    ensures (a + b + c + d)[0..8] == a && (a + b + c + d)[8..16] == b
    ensures (a + b + c + d)[16..24] == c && (a + b + c + d)[24..32] == d
  {
  }

  lemma FieldsRoundTrip(path: Path, e: FileEntry)
    requires e.blobId < TWO_64 && e.size < TWO_64
    ensures ParseFields(path, EntryFields(e)) == FileEntry(path, e.blobId, e.size, e.created, e.modified, false)
  {
    FieldWidths();
    LeRoundTrip(e.blobId, 8);
    LeRoundTrip(e.size, 8);
    LeRoundTrip(e.created, 8);
    LeRoundTrip(e.modified, 8);
    Quarters(ToLe(e.blobId, 8), ToLe(e.size, 8), ToLe(e.created, 8), ToLe(e.modified, 8));
  }

  lemma EntryRoundTrip(path: Path, e: FileEntry)
    requires e.blobId < TWO_64 && e.size < TWO_64
    ensures ParseEntry(EntryBlock(path, e)) ==
      Some(FileEntry(path[..Min(|path|, MAX_PATH)], e.blobId, e.size, e.created, e.modified, false))
  {
    var len := Min(|path|, MAX_PATH);
    FieldWidths();
    LeRoundTrip(len, 2);
    PadSlices(ToLe(len, 2), path[..len], EntryFields(e));
    FieldsRoundTrip(path[..len], e);
  }
}
