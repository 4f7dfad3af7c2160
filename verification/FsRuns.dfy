// Whole runs of the file system, with restarts: it refines a plain map from paths to bytes exactly as
// long as no restart finds a path that is too long for the disk.
module FsRuns {
  import opened Bytes
  import opened Utf8Text
  import opened FsModel
  import opened DiskFormat
  import opened DiskRoundTrip

  // A restart is writing everything to disk and loading it into a new file system. `order` is the
  // order in which the live entries are written.
  datatype FsOp = WriteOp(path: Path, data: seq<byte>, tick: u64) | DeleteOp(path: Path) | RestartOp(order: seq<Path>)

  // Counts and sizes fit their 32-bit fields.
  ghost predicate InRange(fs: Fs) {
    && |fs.blobs| < TWO_32 && |LivePaths(fs)| < TWO_32
    && forall id :: id in fs.blobs ==> |fs.blobs[id]| < TWO_32
  }

  // Paths are strings, and a restart writes the live entries, each once, with counts in range.
  ghost predicate Legal(fs: Fs, op: FsOp) {
    match op
    case WriteOp(p, _, _) => Utf8(p)
    case DeleteOp(_) => true
    case RestartOp(order) => Visits(fs, order) && InRange(fs)
  }

  // What comes back from the disk.
  function Restarted(fs: Fs, order: seq<Path>): Fs
    requires forall p :: p in order ==> p in fs.index
  {
    fs.(index := Reindexed(fs.index, order))
  }

  ghost function FsStep(fs: Fs, h: Hash, op: FsOp): Fs
    requires Legal(fs, op)
  {
    match op
    case WriteOp(p, data, tick) => WriteFile(fs, h, p, data, tick)
    case DeleteOp(p) => DeleteFile(fs, p)
    case RestartOp(order) => assert forall p :: p in order ==> Live(fs, p); Restarted(fs, order)
  }

  // The file system after these operations, if they are legal in this order.
  ghost function FsRun(fs: Fs, h: Hash, ops: seq<FsOp>): Option<Fs> {
    if ops == [] then Some(fs)
    else match FsRun(fs, h, ops[..|ops| - 1])
      case None => None
      case Some(g) => if Legal(g, ops[|ops| - 1]) then Some(FsStep(g, h, ops[|ops| - 1])) else None
  }

  // The restart is the round trip through the disk, whatever else is on it.
  lemma RestartIsReload(v: Disk, fs: Fs, h: Hash, order: seq<Path>)
    requires FsInv(fs, h) && Legal(fs, RestartOp(order)) && Writable(fs, order) && Holds(v, 0, Image(fs, order))
    ensures Load(v, h, EMPTY) == Loaded(FsStep(fs, h, RestartOp(order)))
  {
    hide Load, Image, Holds, FsInv, Reindexed;
    LiveCount(fs, order);
    ReloadOutcome(v, fs, h, order);
  }

  ////////////// One restart //////////////

  ghost predicate ShortPaths(fs: Fs) {
    forall p :: Live(fs, p) ==> |p| <= 255
  }

  // Every entry that comes back is the entry of a live file under its cut path.
  lemma {:induction false} ReindexedOk(index: map<Path, FileEntry>, order: seq<Path>, blobs: Blobs)
    requires IndexInv(index, blobs) && forall p :: p in order ==> p in index
    ensures IndexInv(Reindexed(index, order), blobs) && forall p :: p in Reindexed(index, order) ==> Utf8(p)
  {
    if order != [] {
      var rest, p := order[..|order| - 1], order[|order| - 1];
      ReindexedOk(index, rest, blobs);
      CutIsString(p);
      hide Utf8, Cut;
      assert EntryOk(index[p], p, blobs);
      NewEntry(Reindexed(index, rest), blobs, blobs, Cut(p), Reloaded(p, index[p]).(path := Cut(p)));
    }
  }

  lemma CutIsString(p: Path)
    ensures Utf8(Cut(p))
  {
  }

  lemma ShortIsUncut(p: Path)
    requires Utf8(p) && |p| <= MAX_PATH
    ensures Cut(p) == p
  {
    hide Utf8;
    assert p[..|p|] == p;
  }

  // With short paths the live entries come back as they were.
  lemma {:induction false} ReindexedSame(index: map<Path, FileEntry>, order: seq<Path>)
    requires forall p :: p in order ==>
      p in index && index[p].path == p && !index[p].deleted && Utf8(p) && |p| <= MAX_PATH
    ensures forall p: Path :: p in Reindexed(index, order) <==> p in order
    ensures forall p :: p in order ==> Reindexed(index, order)[p] == index[p]
  {
    if order != [] {
      var rest, p := order[..|order| - 1], order[|order| - 1];
      assert order == rest + [p];
      ReindexedSame(index, rest);
      ShortIsUncut(p);
      hide Utf8, Cut;
    }
  }

  // A restart keeps all blobs and the invariant, whatever becomes of the paths.
  lemma RestartKeeps(fs: Fs, h: Hash, order: seq<Path>)
    requires FsInv(fs, h) && Legal(fs, RestartOp(order))
    ensures var g := FsStep(fs, h, RestartOp(order)); FsInv(g, h) && StringPaths(g) && g.blobs == fs.blobs
  {
    hide InRange, BlobsInv, HashesInv, DedupInv;
    assert forall p :: p in order ==> Live(fs, p);
    ReindexedOk(fs.index, order, fs.blobs);
    hide Reindexed;
  }

  lemma ShortRestart(fs: Fs, h: Hash, order: seq<Path>)
    requires FsInv(fs, h) && StringPaths(fs) && Legal(fs, RestartOp(order)) && ShortPaths(fs)
    ensures FsStep(fs, h, RestartOp(order)) == Compacted(fs)
  {
    hide InRange, BlobsInv, HashesInv, DedupInv, Utf8;
    forall p | p in order
      ensures p in fs.index && fs.index[p].path == p && !fs.index[p].deleted && Utf8(p) && |p| <= MAX_PATH
    {
      assert Live(fs, p) && EntryOk(fs.index[p], p, fs.blobs);
    }
    ReindexedSame(fs.index, order);
    assert Reindexed(fs.index, order) == Compacted(fs).index;
  }

  // Every path reads as before a restart if and only if no live path has more than 255 bytes.
  lemma RestartReadsIff(fs: Fs, h: Hash, order: seq<Path>)
    requires FsInv(fs, h) && StringPaths(fs) && Legal(fs, RestartOp(order))
    ensures (forall p: Path :: ReadFile(FsStep(fs, h, RestartOp(order)), p) == ReadFile(fs, p)) <==> ShortPaths(fs)
  {
    if ShortPaths(fs) {
      ShortRestart(fs, h, order);
      CompactedStep(fs, h);
    } else {
      var p :| Live(fs, p) && |p| > MAX_PATH;
      LongPathGone(fs, h, order, p);
    }
  }

  lemma LongPathGone(fs: Fs, h: Hash, order: seq<Path>, p: Path)
    requires FsInv(fs, h) && Legal(fs, RestartOp(order)) && Live(fs, p) && |p| > MAX_PATH
    ensures ReadFile(fs, p).Some? && ReadFile(FsStep(fs, h, RestartOp(order)), p).None?
  {
    assert EntryOk(fs.index[p], p, fs.blobs);
    assert forall q :: q in order ==> Live(fs, q);
    ReindexedShort(fs.index, order);
  }

  ////////////// Whole runs //////////////

  // What a plain map from paths to bytes would hold: the last write not deleted since, or what was
  // there at the start.
  function LastContent(fs: Fs, ops: seq<FsOp>, path: Path): Option<seq<byte>> {
    if ops == [] then ReadFile(fs, path)
    else
      var rest := ops[..|ops| - 1];
      match ops[|ops| - 1]
      case WriteOp(p, data, _) => if p == path then Some(data) else LastContent(fs, rest, path)
      case DeleteOp(p) => if p == path then None else LastContent(fs, rest, path)
      case RestartOp(_) => LastContent(fs, rest, path)
  }

  // What the operation makes of the file at p in a plain map.
  function Expected(fs: Fs, op: FsOp, p: Path): Option<seq<byte>> {
    match op
    case WriteOp(q, data, _) => if q == p then Some(data) else ReadFile(fs, p)
    case DeleteOp(q) => if q == p then None else ReadFile(fs, p)
    case RestartOp(_) => ReadFile(fs, p)
  }

  // The operation is a restart that finds a path too long for the disk.
  ghost predicate Cuts(fs: Fs, op: FsOp) {
    op.RestartOp? && !ShortPaths(fs)
  }

  lemma FsStepKeeps(fs: Fs, h: Hash, op: FsOp)
    requires FsInv(fs, h) && StringPaths(fs) && Legal(fs, op)
    ensures FsInv(FsStep(fs, h, op), h) && StringPaths(FsStep(fs, h, op)) && Extends(fs.blobs, FsStep(fs, h, op).blobs)
    ensures (forall p: Path :: ReadFile(FsStep(fs, h, op), p) == Expected(fs, op, p)) <==> !Cuts(fs, op)
  {
    hide Utf8, InRange;
    match op
    case WriteOp(p, data, tick) => WriteFileStep(fs, h, p, data, tick);
    case DeleteOp(p) => DeleteFileStep(fs, h, p);
    case RestartOp(order) =>
      RestartKeeps(fs, h, order);
      RestartReadsIff(fs, h, order);
  }

  // On every run, with whatever restarts, the invariant holds and a blob once stored stays under its
  // id with its bytes.
  lemma {:induction false} RunKeeps(fs: Fs, h: Hash, ops: seq<FsOp>)
    requires FsInv(fs, h) && StringPaths(fs) && FsRun(fs, h, ops).Some?
    ensures var g := FsRun(fs, h, ops).value; FsInv(g, h) && StringPaths(g) && Extends(fs.blobs, g.blobs)
  {
    hide FsInv, StringPaths, FsStep, Legal;
    if ops != [] {
      RunKeeps(fs, h, ops[..|ops| - 1]);
      FsStepKeeps(FsRun(fs, h, ops[..|ops| - 1]).value, h, ops[|ops| - 1]);
    }
  }

  // Every path reads as the last write not deleted since, or as at the start.
  ghost predicate Matches(fs: Fs, h: Hash, ops: seq<FsOp>) {
    FsRun(fs, h, ops).Some? && forall p: Path :: ReadFile(FsRun(fs, h, ops).value, p) == LastContent(fs, ops, p)
  }

  // No restart on the run finds a path too long for the disk.
  ghost predicate NothingCut(fs: Fs, h: Hash, ops: seq<FsOp>) {
    forall i :: 0 <= i < |ops| ==> FsRun(fs, h, ops[..i]).Some? && !Cuts(FsRun(fs, h, ops[..i]).value, ops[i])
  }

  lemma {:induction false} PrefixRuns(fs: Fs, h: Hash, ops: seq<FsOp>, i: nat)
    requires FsRun(fs, h, ops).Some? && i <= |ops|
    ensures FsRun(fs, h, ops[..i]).Some?
    ensures i < |ops| ==>
      && Legal(FsRun(fs, h, ops[..i]).value, ops[i])
      && FsRun(fs, h, ops[..i + 1]) == Some(FsStep(FsRun(fs, h, ops[..i]).value, h, ops[i]))
  {
    hide FsStep, Legal;
    if i < |ops| {
      assert ops[..i + 1][..i] == ops[..i];
      if i + 1 < |ops| {
        PrefixRuns(fs, h, ops[..|ops| - 1], i);
        assert ops[..|ops| - 1][..i] == ops[..i] && ops[..|ops| - 1][..i + 1] == ops[..i + 1];
      } else {
        assert ops[..i + 1] == ops;
      }
    } else {
      assert ops[..i] == ops;
    }
  }

  // One operation more: the run still matches if and only if this is not a restart that cuts a path.
  lemma NextMatches(fs: Fs, h: Hash, ops: seq<FsOp>, i: nat)
    requires FsInv(fs, h) && StringPaths(fs) && FsRun(fs, h, ops).Some? && i < |ops| && Matches(fs, h, ops[..i])
    ensures FsRun(fs, h, ops[..i]).Some? && (Matches(fs, h, ops[..i + 1]) <==> !Cuts(FsRun(fs, h, ops[..i]).value, ops[i]))
  {
    hide FsInv, StringPaths, FsStep, Legal, ReadFile, Cuts, FsRun;
    PrefixRuns(fs, h, ops, i);
    var g, op := FsRun(fs, h, ops[..i]).value, ops[i];
    RunKeeps(fs, h, ops[..i]);
    FsStepKeeps(g, h, op);
    assert ops[..i + 1][..i] == ops[..i];
    forall p: Path ensures LastContent(fs, ops[..i + 1], p) == Expected(g, op, p) {
      assert ReadFile(g, p) == LastContent(fs, ops[..i], p);
    }
  }

  // For every hash function, however bad: the file system is a plain map from paths to bytes at every
  // moment of a run if and only if no restart on it finds a path of more than 255 bytes.
  lemma RefinesMapIff(fs: Fs, h: Hash, ops: seq<FsOp>)
    requires FsInv(fs, h) && StringPaths(fs) && FsRun(fs, h, ops).Some?
    ensures NothingCut(fs, h, ops) <==> forall i :: 0 <= i <= |ops| ==> Matches(fs, h, ops[..i])
  {
    hide FsInv, StringPaths, Cuts, Matches;
    if NothingCut(fs, h, ops) {
      forall i | 0 <= i <= |ops| ensures Matches(fs, h, ops[..i]) { UncutMatches(fs, h, ops, i); }
    }
    if forall i :: 0 <= i <= |ops| ==> Matches(fs, h, ops[..i]) {
      forall i | 0 <= i < |ops| ensures FsRun(fs, h, ops[..i]).Some? && !Cuts(FsRun(fs, h, ops[..i]).value, ops[i]) {
        assert Matches(fs, h, ops[..i]) && Matches(fs, h, ops[..i + 1]);
        NextMatches(fs, h, ops, i);
      }
    }
  }

  lemma {:induction false} UncutMatches(fs: Fs, h: Hash, ops: seq<FsOp>, i: nat)
    requires FsInv(fs, h) && StringPaths(fs) && FsRun(fs, h, ops).Some? && NothingCut(fs, h, ops) && i <= |ops|
    ensures Matches(fs, h, ops[..i])
  {
    hide FsInv, StringPaths, Cuts;
    if i == 0 {
      assert ops[..i] == [];
    } else {
      hide Matches;
      UncutMatches(fs, h, ops, i - 1);
      NextMatches(fs, h, ops, i - 1);
    }
  }

  ////////////// From the empty file system //////////////

  // Every file system reached from the empty one, with whatever restarts, comes back from the disk
  // whole if and only if the format can express it.
  lemma ReachableRoundTrip(v: Disk, h: Hash, ops: seq<FsOp>, order: seq<Path>)
    requires FsRun(EMPTY, h, ops).Some? && Visits(FsRun(EMPTY, h, ops).value, order)
    ensures var fs := FsRun(EMPTY, h, ops).value;
      Writable(fs, order) &&
      (Holds(v, 0, Image(fs, order)) ==> (Load(v, h, EMPTY) == Loaded(Compacted(fs)) <==> Expressible(fs)))
  {
    hide FsRun, StringPaths, Load, Image, Holds, Expressible, HashesInv, DedupInv, IndexInv, Compacted;
    EmptyInv(h);
    RunKeeps(EMPTY, h, ops);
    var fs := FsRun(EMPTY, h, ops).value;
    if Holds(v, 0, Image(fs, order)) { RoundTripIffExpressible(v, fs, h, order); }
  }
}
