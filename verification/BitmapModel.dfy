// One bit per frame, packed eight to a byte.
module BitmapModel {
  predicate IsSet(b: bv8, i: nat)
    requires i < 8
  {
    (b >> i) & 1 == 1
  }

  function SetBit(b: bv8, i: nat): bv8
    requires i < 8
  {
    b | (1 << i)
  }

  function ClearBit(b: bv8, i: nat): bv8
    requires i < 8
  {
    b & !(1 << i)
  }

  // The mask of bit i.
  function Mask(i: nat): bv8
    requires i < 8
  {
    match i
    case 0 => 1 case 1 => 2 case 2 => 4 case 3 => 8 case 4 => 16 case 5 => 32 case 6 => 64 case 7 => 128
  }

  lemma Masked(b: bv8, i: nat)
    requires i < 8
    ensures IsSet(b, i) <==> b & Mask(i) != 0
  {
    match i
    case 0 => case 1 => case 2 => case 3 => case 4 => case 5 => case 6 => case 7 =>
  }

  lemma ShiftIsMask(i: nat)
    requires i < 8
    ensures (1 as bv8) << i == Mask(i) && Mask(i) != 0
  {
    match i
    case 0 => case 1 => case 2 => case 3 => case 4 => case 5 => case 6 => case 7 =>
  }

  lemma MasksDisjoint(i: nat, j: nat)
    requires i < 8 && j < 8 && i != j
    ensures Mask(i) & Mask(j) == 0
  {
  }

  lemma MaskAlgebra(b: bv8, m: bv8, n: bv8)
    ensures (b | m) & n == 0 <==> b & n == 0 && m & n == 0
    ensures m & n == 0 ==> (b & !m) & n == b & n
    ensures (b & !m) & m == 0
  {
  }

  lemma BitEffects(b: bv8, i: nat, j: nat)
    requires i < 8 && j < 8
    ensures IsSet(SetBit(b, i), j) == (i == j || IsSet(b, j))
    ensures IsSet(ClearBit(b, i), j) == (i != j && IsSet(b, j))
  {
    hide IsSet, Mask;
    ShiftIsMask(i);
    Masked(b, j);
    Masked(SetBit(b, i), j);
    Masked(ClearBit(b, i), j);
    MaskAlgebra(b, Mask(i), Mask(j));
    if i == j { MaskSelf(b, Mask(i)); } else { MasksDisjoint(i, j); }
  }

  lemma MaskSelf(b: bv8, m: bv8)
    ensures (b | m) & m == m && (b & !m) & m == 0
  {
  }

  lemma AllOnes(j: nat)
    requires j < 8
    ensures IsSet(0xFF, j)
  {
    Masked(0xFF, j);
  }

  ////////////// Whole bitmaps //////////////

  // Frame i is marked allocated.
  predicate Used(a: seq<bv8>, i: nat)
    requires i < 8 * |a|
  {
    IsSet(a[i / 8], i % 8)
  }

  function Marked(a: seq<bv8>, i: nat, used: bool): seq<bv8>
    requires i < 8 * |a|
  {
    a[i / 8 := if used then SetBit(a[i / 8], i % 8) else ClearBit(a[i / 8], i % 8)]
  }

  // Marking one frame leaves all others alone.
  lemma MarkedUsed(a: seq<bv8>, i: nat, used: bool, j: nat)
    requires i < 8 * |a| && j < 8 * |a|
    ensures Used(Marked(a, i, used), j) == if j == i then used else Used(a, j)
  {
    hide IsSet, SetBit, ClearBit;
    if i / 8 == j / 8 { BitEffects(a[i / 8], i % 8, j % 8); }
  }

  function Bit(b: bv8, i: nat): nat
    requires i < 8
  {
    if IsSet(b, i) then 1 else 0
  }

  // `count_ones`
  function CountOnes(b: bv8): nat {
    Bit(b, 0) + Bit(b, 1) + Bit(b, 2) + Bit(b, 3) + Bit(b, 4) + Bit(b, 5) + Bit(b, 6) + Bit(b, 7)
  }

  // How many of the first n frames are marked.
  function UsedCount(a: seq<bv8>, n: nat): nat
    requires n <= 8 * |a|
  {
    if n == 0 then 0 else UsedCount(a, n - 1) + if Used(a, n - 1) then 1 else 0
  }

  lemma ByteCount(a: seq<bv8>, k: nat)
    requires k < |a|
    ensures UsedCount(a, 8 * (k + 1)) == UsedCount(a, 8 * k) + CountOnes(a[k])
  {
    hide UsedCount, Bit;
    BitInByte(a, k, 0);
    BitInByte(a, k, 1);
    BitInByte(a, k, 2);
    BitInByte(a, k, 3);
    BitInByte(a, k, 4);
    BitInByte(a, k, 5);
    BitInByte(a, k, 6);
    BitInByte(a, k, 7);
  }

  lemma BitInByte(a: seq<bv8>, k: nat, i: nat)
    requires k < |a| && i < 8
    ensures UsedCount(a, 8 * k + i + 1) == UsedCount(a, 8 * k + i) + Bit(a[k], i)
  {
    assert (8 * k + i) / 8 == k && (8 * k + i) % 8 == i;
  }

  ghost function FreeFrames(a: seq<bv8>, n: nat): set<nat>
    requires n <= 8 * |a|
  {
    set i: nat | i < n && !Used(a, i)
  }

  lemma {:induction false} FreeAndUsed(a: seq<bv8>, n: nat)
    requires n <= 8 * |a|
    ensures |FreeFrames(a, n)| + UsedCount(a, n) == n
  {
    if n > 0 {
      FreeAndUsed(a, n - 1);
      if Used(a, n - 1) {
        assert FreeFrames(a, n) == FreeFrames(a, n - 1);
      } else {
        assert FreeFrames(a, n) == FreeFrames(a, n - 1) + {n - 1};
      }
    }
  }

  // The bits after the last frame count as used when they are all set.
  lemma {:induction false} PaddingCount(a: seq<bv8>, n: nat, m: nat)
    requires n <= m <= 8 * |a| && forall i :: n <= i < m ==> Used(a, i)
    ensures UsedCount(a, m) == UsedCount(a, n) + (m - n)
  {
    if n < m { PaddingCount(a, n, m - 1); }
  }
}
