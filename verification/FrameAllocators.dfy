// The bitmap frame allocator and its set-up from the boot memory map.
module FrameAllocators {
  import opened Bytes
  import opened BitmapModel
  import opened FrameModel

  class BitmapFrameAllocator {
    const bitmap: array<bv8>
    const totalFrames: nat
    var nextFree: nat

    ghost predicate Valid()
      reads this
    {
      bitmap.Length == (totalFrames + 7) / 8 && nextFree <= totalFrames
    }

    // The bits past the last frame are set.
    ghost predicate PaddingSet()
      requires Valid()
      reads this, bitmap
    {
      forall i :: totalFrames <= i < 8 * bitmap.Length ==> Used(bitmap[..], i)
    }

    ghost function Free(): set<nat>
      requires Valid()
      reads this, bitmap
    {
      FreeFrames(bitmap[..], totalFrames)
    }

    ghost function Value(): Frames
      requires Valid()
      reads this, bitmap
    {
      Frames(Free(), nextFree)
    }

    // Everything is allocated at first.
    constructor (totalFrames: nat)
      ensures this.totalFrames == totalFrames && Valid() && fresh(bitmap)
      ensures Free() == {} && nextFree == 0 && PaddingSet() && forall k :: 0 <= k < bitmap.Length ==> bitmap[k] == 0xFF
    {
      this.totalFrames := totalFrames;
      bitmap := new bv8[(totalFrames + 7) / 8](_ => 0xFF);
      nextFree := 0;
      new;
      forall i: nat | i < 8 * bitmap.Length ensures Used(bitmap[..], i) { AllOnes(i % 8); }
    }

    method Mark(i: nat, used: bool)
      requires Valid() && i < 8 * bitmap.Length
      modifies bitmap
      ensures bitmap[..] == Marked(old(bitmap[..]), i, used)
    {
      hide SetBit, ClearBit;
      var byte, bit := i / 8, i % 8;
      bitmap[byte] := if used then SetBit(bitmap[byte], bit) else ClearBit(bitmap[byte], bit);
    }

    // Marks frame i, which is a frame.
    method MarkFrame(i: nat, used: bool)
      requires Valid() && i < totalFrames
      modifies bitmap
      ensures Free() == if used then old(Free()) - {i} else old(Free()) + {i}
      ensures old(PaddingSet()) ==> PaddingSet()
    {
      ghost var before := bitmap[..];
      Mark(i, used);
      forall j: nat | j < 8 * bitmap.Length ensures Used(bitmap[..], j) == if j == i then used else Used(before, j) {
        MarkedUsed(before, i, used, j);
      }
    }

    // Marks a region; frames past the end are ignored.
    method MarkRegion(start: nat, count: nat, used: bool)
      requires Valid()
      modifies bitmap
      ensures old(PaddingSet()) ==> PaddingSet()
      ensures !used && old(HintLow(Value())) ==>
        (HintLow(Value()) <==> forall i :: i in Region(start, count, totalFrames) ==> i >= nextFree)
      ensures Free() == if used then old(Free()) - Region(start, count, totalFrames)
                        else old(Free()) + Region(start, count, totalFrames)
    {
      for i := start to start + count
        invariant old(PaddingSet()) ==> PaddingSet()
        invariant Free() == if used then old(Free()) - Region(start, i - start, totalFrames)
                            else old(Free()) + Region(start, i - start, totalFrames)
      {
        if i < totalFrames { MarkFrame(i, used); }
      }
    }

    // It fails if and only if no frame is free. With nothing free below the hint it takes the lowest
    // free frame, and that stays so.
    method AllocateFrame() returns (r: Option<nat>)
      requires Valid()
      modifies this`nextFree, bitmap
      ensures Valid() && r == Candidate(old(Value())) && Value() == Allocated(old(Value()))
      ensures r.None? <==> old(Free()) == {}
      ensures r.Some? ==> r.value in old(Free()) && Free() == old(Free()) - {r.value}
      ensures r.Some? ==> nextFree == r.value + 1
      ensures r.Some? ==> forall j :: j in old(Free()) ==>
        (if j >= old(nextFree) then old(nextFree) <= r.value <= j else r.value >= old(nextFree) || r.value <= j)
      ensures old(HintLow(Value())) ==> HintLow(Value()) && (r.Some? ==> IsLeast(old(Free()), r.value))
      ensures old(PaddingSet()) ==> PaddingSet()
    {
      ghost var f := Value();
      AllocatedOutcome(f);
      var i := nextFree;
      while i < totalFrames
        invariant nextFree <= i <= totalFrames && Value() == f && bitmap[..] == old(bitmap[..])
        invariant forall j :: nextFree <= j < i ==> j !in f.free
      {
        if !IsSet(bitmap[i / 8], i % 8) {
          assert IsLeast(FromHint(f), i);
          MarkFrame(i, true);
          nextFree := i + 1;
          return Some(i);
        }
        i := i + 1;
      }
      assert FromHint(f) == {};
      i := 0;
      while i < nextFree
        invariant 0 <= i <= nextFree && Value() == f && bitmap[..] == old(bitmap[..])
        invariant forall j :: 0 <= j < i ==> j !in f.free
      {
        if !IsSet(bitmap[i / 8], i % 8) {
          assert IsLeast(f.free, i);
          MarkFrame(i, true);
          nextFree := i + 1;
          return Some(i);
        }
        i := i + 1;
      }
      assert f.free == {};
      r := None;
    }

    // The kernel stops on an index outside the bitmap; one past the last frame clears a padding bit.
    method FreeFrame(i: nat) returns (ok: bool)
      requires Valid()
      modifies this`nextFree, bitmap
      ensures Valid() && ok == (i < 8 * bitmap.Length)
      ensures Value() == if i < totalFrames then Freed(old(Value()), i) else old(Value())
      ensures i < totalFrames ==> Free() == old(Free()) + {i} && nextFree <= i && nextFree <= old(nextFree)
      ensures i < totalFrames ==> nextFree == i || nextFree == old(nextFree)
      ensures i < totalFrames && old(HintLow(Value())) ==> HintLow(Value())
      ensures i < totalFrames && old(PaddingSet()) ==> PaddingSet()
    {
      if i / 8 >= bitmap.Length { return false; }
      if i < totalFrames {
        MarkFrame(i, false);
      } else {
        MarkPadding(i);
      }
      if i < nextFree { nextFree := i; }
      ok := true;
    }

    method MarkPadding(i: nat)
      requires Valid() && totalFrames <= i < 8 * bitmap.Length
      modifies bitmap
      ensures Free() == old(Free())
    {
      ghost var a := bitmap[..];
      Mark(i, false);
      forall j: nat | j < totalFrames ensures Used(bitmap[..], j) == Used(a, j) { MarkedUsed(a, i, false, j); }
    }

    // How many bits past the last frame are set.
    ghost function PaddingUsed(): int
      requires Valid()
      reads this, bitmap
    {
      UsedCount(bitmap[..], 8 * bitmap.Length) - UsedCount(bitmap[..], totalFrames)
    }

    // The reported number of free frames is too low by the padding bits that are set. As long as no
    // index past the last frame was freed, those are all of them: then it is right if and only if the
    // number of frames is a multiple of eight. Below zero it wraps or stops the kernel.
    method Stats() returns (free: int, total: nat)
      requires Valid()
      ensures total == totalFrames && free == |Free()| - PaddingUsed()
      ensures PaddingSet() ==> PaddingUsed() == 8 * bitmap.Length - totalFrames
      ensures PaddingSet() ==> (free == |Free()| <==> totalFrames % 8 == 0)
    {
      hide CountOnes, UsedCount, Used;
      FreeAndUsed(bitmap[..], 0);
      var used := 0;
      for k := 0 to bitmap.Length
        invariant used == UsedCount(bitmap[..], 8 * k)
      {
        ByteCount(bitmap[..], k);
        used := used + CountOnes(bitmap[k]);
      }
      FreeAndUsed(bitmap[..], totalFrames);
      if PaddingSet() { PaddingCount(bitmap[..], totalFrames, 8 * bitmap.Length); }
      free, total := totalFrames - used, totalFrames;
    }
  }

  ////////////// Set-up //////////////

  const PAGE_SIZE: nat := 4096

  datatype MemoryKind = Usable | BootloaderReclaimable | ExecutableAndModules | Other

  datatype MemoryEntry = MemoryEntry(base: nat, length: nat, kind: MemoryKind)

  predicate Protected(e: MemoryEntry) {
    e.kind.BootloaderReclaimable? || e.kind.ExecutableAndModules?
  }

  predicate HasFrame(e: MemoryEntry, i: nat) {
    Within(i, e.base / PAGE_SIZE, e.length / PAGE_SIZE)
  }

  ghost predicate InUsable(entries: seq<MemoryEntry>, i: nat) {
    exists k :: 0 <= k < |entries| && entries[k].kind.Usable? && HasFrame(entries[k], i)
  }

  ghost predicate InProtected(entries: seq<MemoryEntry>, i: nat) {
    exists k :: 0 <= k < |entries| && Protected(entries[k]) && HasFrame(entries[k], i)
  }

  // The bitmap for `total` frames, stored from physical address `phys` on.
  predicate InBitmap(phys: nat, total: nat, i: nat) {
    Within(i, phys / PAGE_SIZE, ((total + 7) / 8 + PAGE_SIZE - 1) / PAGE_SIZE)
  }

  ghost function Available(entries: seq<MemoryEntry>, total: nat, phys: nat): set<nat> {
    set i: nat | i < total && InUsable(entries, i) && !InBitmap(phys, total, i) && !InProtected(entries, i)
  }

  // One past the highest usable address, or 0 if there is none.
  function MaxUsable(entries: seq<MemoryEntry>): (m: nat)
    ensures forall e :: e in entries && e.kind.Usable? ==> e.base + e.length <= m
    ensures m == 0 || exists e :: e in entries && e.kind.Usable? && e.base + e.length == m
  {
    if entries == [] then 0
    else
      var e, m := entries[0], MaxUsable(entries[1..]);
      assert forall x :: x in entries ==> x == e || x in entries[1..];
      if e.kind.Usable? && e.base + e.length > m then e.base + e.length else m
  }

  function TotalFrames(entries: seq<MemoryEntry>): (n: nat)
    ensures n * 4096 <= MaxUsable(entries) < (n + 1) * 4096
  {
    MaxUsable(entries) / PAGE_SIZE
  }

  // The entry the bitmap goes into: the first usable one that can hold it.
  ghost predicate HoldsBitmap(entries: seq<MemoryEntry>, k: nat) {
    k < |entries| && entries[k].kind.Usable? && entries[k].length >= (TotalFrames(entries) + 7) / 8
  }

  method MarkEntries(a: BitmapFrameAllocator, entries: seq<MemoryEntry>, kinds: set<MemoryKind>, used: bool)
    requires a.Valid()
    modifies a.bitmap
    ensures old(a.PaddingSet()) ==> a.PaddingSet()
    ensures forall i: nat :: i < a.totalFrames ==> (i in a.Free() <==>
      if exists k :: 0 <= k < |entries| && entries[k].kind in kinds && HasFrame(entries[k], i) then !used else i in old(a.Free()))
  {
    for n := 0 to |entries|
      invariant old(a.PaddingSet()) ==> a.PaddingSet()
      invariant forall i: nat :: i < a.totalFrames ==> (i in a.Free() <==>
        if exists k :: 0 <= k < n && entries[k].kind in kinds && HasFrame(entries[k], i) then !used else i in old(a.Free()))
    {
      if entries[n].kind in kinds {
        a.MarkRegion(entries[n].base / PAGE_SIZE, entries[n].length / PAGE_SIZE, used);
      }
    }
  }

  // The free frames are fewer than the padding bits of the bitmap.
  ghost predicate CountsBelowZero(entries: seq<MemoryEntry>, k: nat)
    requires k < |entries|
  {
    var total := TotalFrames(entries);
    |Available(entries, total, entries[k].base)| < 8 * ((total + 7) / 8) - total
  }

  // It can hold it just when every byte of the bitmap lies in it; the bitmap has a bit for every frame
  // and fewer than eight to spare.
  lemma HoldsBitmapIff(entries: seq<MemoryEntry>, k: nat, size: nat)
    requires TotalFrames(entries) <= 8 * size < TotalFrames(entries) + 8
    ensures HoldsBitmap(entries, k) <==>
      && k < |entries| && entries[k].kind.Usable?
      && forall a: nat :: entries[k].base <= a < entries[k].base + size ==> InEntry(a, entries[k])
  {
    hide MaxUsable;
    if k < |entries| && size > 0 && entries[k].length < size {
      assert !InEntry(entries[k].base + size - 1, entries[k]);
    }
  }

  // Where the bitmap goes; the number of entries if nowhere.
  method FindRoom(entries: seq<MemoryEntry>, size: nat) returns (k: nat)
    requires size == (TotalFrames(entries) + 7) / 8
    ensures k <= |entries| && (k < |entries| ==> HoldsBitmap(entries, k)) && forall j: nat :: j < k ==> !HoldsBitmap(entries, j)
  {
    hide MaxUsable;
    k := 0;
    while k < |entries| && !(entries[k].kind.Usable? && entries[k].length >= size)
      invariant 0 <= k <= |entries| && forall j: nat :: j < k ==> !HoldsBitmap(entries, j)
    {
      k := k + 1;
    }
  }

  method MarkAll(total: nat, entries: seq<MemoryEntry>, k: nat) returns (a: BitmapFrameAllocator)
    requires k < |entries|
    ensures fresh(a) && fresh(a.bitmap) && a.Valid() && a.PaddingSet() && a.totalFrames == total && a.nextFree == 0
    ensures a.Free() == Available(entries, total, entries[k].base)
  {
    a := new BitmapFrameAllocator(total);
    MarkEntries(a, entries, {Usable}, false);
    a.MarkRegion(entries[k].base / PAGE_SIZE, ((total + 7) / 8 + PAGE_SIZE - 1) / PAGE_SIZE, true);
    MarkEntries(a, entries, {BootloaderReclaimable, ExecutableAndModules}, true);
    assert a.Free() == Available(entries, total, entries[k].base);
  }

  // None is the kernel stopping: for want of a usable region that can hold the bitmap, or, in a build
  // that checks for overflow, when the report of free frames comes out below zero. Otherwise exactly
  // the usable frames that hold neither the bitmap nor protected memory are free.
  method Init(entries: seq<MemoryEntry>, overflowChecks: bool) returns (r: Option<BitmapFrameAllocator>, k: nat)
    ensures k < |entries| <==> exists j: nat :: HoldsBitmap(entries, j)
    ensures k < |entries| ==> HoldsBitmap(entries, k) && forall j: nat :: j < k ==> !HoldsBitmap(entries, j)
    ensures r.None? <==> k >= |entries| || (overflowChecks && CountsBelowZero(entries, k))
    ensures r.Some? ==>
      && fresh(r.value) && fresh(r.value.bitmap) && r.value.Valid() && r.value.PaddingSet()
      && r.value.totalFrames == TotalFrames(entries) && r.value.nextFree == 0
      && r.value.Free() == Available(entries, TotalFrames(entries), entries[k].base)
  {
    hide FreeFrames, Used, UsedCount, Available, MaxUsable;
    var total := TotalFrames(entries);
    k := FindRoom(entries, (total + 7) / 8);
    if k == |entries| { return None, k; }
    var a := MarkAll(total, entries, k);
    var free, _ := a.Stats();
    r := if overflowChecks && free < 0 then None else Some(a);
  }

  // A machine with a single usable page: the bitmap takes it, and no frame is left to make up for the
  // seven padding bits.
  lemma OnePageStops()
    ensures var entries := [MemoryEntry(0, PAGE_SIZE, Usable)];
      HoldsBitmap(entries, 0) && CountsBelowZero(entries, 0)
  {
    var entries := [MemoryEntry(0, PAGE_SIZE, Usable)];
    assert entries[1..] == [] && MaxUsable(entries) == PAGE_SIZE;
    assert Available(entries, 1, 0) == {} by { assert InBitmap(0, 1, 0); }
  }

  // With page-aligned entries, every byte of an available frame is usable memory and none of them
  // is part of the stored bitmap.
  lemma AvailableIsUsable(entries: seq<MemoryEntry>, total: nat, phys: nat, i: nat, address: nat)
    requires forall e :: e in entries ==> e.base % PAGE_SIZE == 0
    requires i in Available(entries, total, phys) && phys % PAGE_SIZE == 0
    requires i * PAGE_SIZE <= address < (i + 1) * PAGE_SIZE
    ensures exists e :: e in entries && e.kind.Usable? && e.base <= address < e.base + e.length
    ensures !(phys <= address < phys + (total + 7) / 8)
  {
    var k :| 0 <= k < |entries| && entries[k].kind.Usable? && HasFrame(entries[k], i);
    var e := entries[k];
    assert e in entries && e.base / PAGE_SIZE * PAGE_SIZE == e.base;
    assert e.length / PAGE_SIZE * PAGE_SIZE <= e.length;
    assert phys / PAGE_SIZE * PAGE_SIZE == phys;
  }

  // Byte a is in frame i.
  predicate InFrame(a: nat, i: nat) {
    i * PAGE_SIZE <= a < (i + 1) * PAGE_SIZE
  }

  predicate InEntry(a: nat, e: MemoryEntry) {
    e.base <= a < e.base + e.length
  }

  lemma FrameOfEntry(e: MemoryEntry, i: nat, a: nat)
    requires e.base % PAGE_SIZE == 0 && e.length % PAGE_SIZE == 0 && InFrame(a, i)
    ensures HasFrame(e, i) <==> InEntry(a, e)
  {
    var b, n := e.base / PAGE_SIZE, e.length / PAGE_SIZE;
    assert e.base == PAGE_SIZE * b && e.length == PAGE_SIZE * n;
  }

  lemma FrameOfBitmap(phys: nat, total: nat, i: nat)
    requires phys % PAGE_SIZE == 0 && total > 0
    ensures InBitmap(phys, total, i) <==> i * PAGE_SIZE < phys + (total + 7) / 8 && phys < (i + 1) * PAGE_SIZE
  {
    var b, size := phys / PAGE_SIZE, (total + 7) / 8;
    assert phys == PAGE_SIZE * b && size > 0;
  }

  // In terms of bytes: with page-aligned entries, the frames below the total that are available are
  // exactly those whose bytes lie in a usable entry and in no protected one, and that do not meet the
  // stored bitmap.
  lemma AvailableIff(entries: seq<MemoryEntry>, total: nat, phys: nat, i: nat, a: nat)
    requires forall k :: 0 <= k < |entries| ==> entries[k].base % PAGE_SIZE == 0 && entries[k].length % PAGE_SIZE == 0
    requires phys % PAGE_SIZE == 0 && i < total && InFrame(a, i)
    ensures i in Available(entries, total, phys) <==>
      && (exists k :: 0 <= k < |entries| && entries[k].kind.Usable? && InEntry(a, entries[k]))
      && (forall k :: 0 <= k < |entries| && InEntry(a, entries[k]) ==>
            !entries[k].kind.BootloaderReclaimable? && !entries[k].kind.ExecutableAndModules?)
      && !(i * PAGE_SIZE < phys + (total + 7) / 8 && phys < (i + 1) * PAGE_SIZE)
  {
    forall k | 0 <= k < |entries| ensures HasFrame(entries[k], i) <==> InEntry(a, entries[k]) {
      FrameOfEntry(entries[k], i, a);
    }
    FrameOfBitmap(phys, total, i);
    hide HasFrame, InEntry, InBitmap;
  }

  // After set-up, whatever is allocated and freed, every byte of a frame handed out is usable memory
  // and none of them is part of the stored bitmap.
  lemma HandedOutIsUsable(entries: seq<MemoryEntry>, k: nat, ops: seq<FrameOp>, i: nat, address: nat)
    requires HoldsBitmap(entries, k) && forall e :: e in entries ==> e.base % PAGE_SIZE == 0
    requires forall n :: 0 <= n < |ops| ==> !ops[n].RegionOp?
    requires var boot := Ledger(Frames(Available(entries, TotalFrames(entries), entries[k].base), 0), {});
      Possible(boot, ops) && i in Run(boot, ops).out
    requires i * PAGE_SIZE <= address < (i + 1) * PAGE_SIZE
    ensures exists e :: e in entries && e.kind.Usable? && e.base <= address < e.base + e.length
    ensures !(entries[k].base <= address < entries[k].base + (TotalFrames(entries) + 7) / 8)
  {
    hide Run, FrameModel.Possible, Available;
    RunBalances(Ledger(Frames(Available(entries, TotalFrames(entries), entries[k].base), 0), {}), ops);
    NoRegions(ops);
    AvailableIsUsable(entries, TotalFrames(entries), entries[k].base, i, address);
  }
}
