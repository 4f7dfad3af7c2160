// Bytes, 512-byte blocks and little-endian integers: the vocabulary of the storage modules.
module Bytes {
  type byte = x: int | 0 <= x < 256

  const BLOCK_SIZE: nat := 512
  const TWO_32: nat := 0x1_0000_0000
  const TWO_64: nat := 0x1_0000_0000_0000_0000

  type u64 = x: nat | x < TWO_64

  type Block = s: seq<byte> | |s| == BLOCK_SIZE witness Zeros(BLOCK_SIZE)

  datatype Option<+T> = None | Some(value: T)
  datatype Result<+T> = Ok(value: T) | Err

  function Zeros(n: nat): (s: seq<byte>)
    ensures |s| == n && forall i :: 0 <= i < n ==> s[i] == 0
  {
    seq(n, _ => 0)
  }

  function Min(a: nat, b: nat): nat {
    if a < b then a else b
  }

  // `block[at..at + |data|].copy_from_slice(data)` on a block held by value.
  function CopyInto(block: Block, at: nat, data: seq<byte>): (r: Block)
    requires at + |data| <= BLOCK_SIZE
    ensures r[at..at + |data|] == data
    ensures forall i :: 0 <= i < at || at + |data| <= i < BLOCK_SIZE ==> r[i] == block[i]
  {
    block[..at] + data + block[at + |data|..]
  }

  // The block that starts with `s` and is zero afterwards.
  function Pad(s: seq<byte>): (b: Block)
    requires |s| <= BLOCK_SIZE
  {
    s + Zeros(BLOCK_SIZE - |s|)
  }

  // Copying piece after piece into a block of zeros.
  lemma CopyNext(a: seq<byte>, b: seq<byte>)
    requires |a| + |b| <= BLOCK_SIZE
    ensures CopyInto(Pad(a), |a|, b) == Pad(a + b)
  {
  }

  lemma CopyFirst(a: seq<byte>)
    requires |a| <= BLOCK_SIZE
    ensures CopyInto(Zeros(BLOCK_SIZE), 0, a) == Pad(a)
  {
  }

  lemma PadFirst(s: seq<byte>)
    requires |s| <= BLOCK_SIZE
    ensures Pad(s)[..|s|] == s
  {
  }

  lemma PadSlices(a: seq<byte>, b: seq<byte>, c: seq<byte>)
    requires |a| + |b| + |c| <= BLOCK_SIZE
    ensures Pad(a + b + c)[0..|a|] == a
    ensures Pad(a + b + c)[|a|..|a| + |b|] == b
    ensures Pad(a + b + c)[|a| + |b|..|a| + |b| + |c|] == c
  {
  }

  function Pow256(w: nat): (p: nat)
    ensures p > 0
  {
    if w == 0 then 1 else 256 * Pow256(w - 1)
  }

  // `n.to_le_bytes()` of a w-byte integer: the low w bytes of n.
  function ToLe(n: nat, w: nat): (s: seq<byte>)
    ensures |s| == w
    decreases w
  {
    if w == 0 then [] else [n % 256] + ToLe(n / 256, w - 1)
  }

  // `from_le_bytes`
  function FromLe(s: seq<byte>): (n: nat)
    ensures n < Pow256(|s|)
  {
    if s == [] then 0 else s[0] + 256 * FromLe(s[1..])
  }

  lemma {:induction false} LeRoundTrip(n: nat, w: nat)
    requires n < Pow256(w)
    ensures FromLe(ToLe(n, w)) == n
    decreases w
  {
    if w > 0 {
      LeRoundTrip(n / 256, w - 1);
      assert ToLe(n, w)[1..] == ToLe(n / 256, w - 1);
    }
  }

  // The least significant byte comes first.
  lemma LeBytes(n: nat)
    ensures ToLe(n, 2) == [n % 256, n / 0x100 % 256]
    ensures ToLe(n, 4) == [n % 256, n / 0x100 % 256, n / 0x1_0000 % 256, n / 0x100_0000 % 256]
    ensures ToLe(n, 8) == ToLe(n, 4) + ToLe(n / 0x1_0000_0000, 4)
  {
    hide ToLe;
    LeTwo(n);
    LeTwo(n / 0x1_0000);
    LeSplit(n, 2, 0x1_0000);
    LeSplit(n, 4, 0x1_0000_0000);
    ThreeBytesUp(n);
  }

  lemma ThreeBytesUp(n: nat)
    ensures n / 0x1_0000 / 0x100 == n / 0x100_0000
  {
  }

  lemma LeTwo(n: nat)
    ensures ToLe(n, 2) == [n % 256, n / 0x100 % 256]
  {
    assert ToLe(n / 0x100 / 256, 0) == [];
    assert ToLe(n / 0x100, 1) == [n / 0x100 % 256];
  }

  lemma LeSplit(n: nat, w: nat, p: nat)
    requires (w == 2 && p == 0x1_0000) || (w == 4 && p == 0x1_0000_0000)
    ensures ToLe(n, 2 * w) == ToLe(n, w) + ToLe(n / p, w)
  {
    if w == 2 {
      assert ToLe(n, 4) == [n % 256] + ([n / 256 % 256] + ToLe(n / 256 / 256, 2));
      LeTwo(n);
      assert n / 256 / 256 == n / p;
    } else {
      LeSplit(n, 2, 0x1_0000);
      LeSplit(n / 0x1_0000, 2, 0x1_0000);
      var a, b, c := n / 256, n / 256 / 256, n / 256 / 256 / 256;
      assert ToLe(n, 8) == [n % 256] + ToLe(a, 7) && ToLe(a, 7) == [a % 256] + ToLe(b, 6);
      assert ToLe(b, 6) == [b % 256] + ToLe(c, 5) && ToLe(c, 5) == [c % 256] + ToLe(c / 256, 4);
      LeTwo(n);
      LeTwo(b);
      assert b == n / 0x1_0000 && c / 256 == n / p && b / 0x100 == c;
      assert ToLe(n, 4) == [n % 256, a % 256, b % 256, c % 256];
    }
  }

  lemma FieldWidths()
    ensures Pow256(2) == 0x1_0000 && Pow256(4) == TWO_32 && Pow256(8) == TWO_64
  {
    assert Pow256(2) == 256 * 256;
    assert Pow256(3) == 256 * Pow256(2);
    assert Pow256(4) == 256 * Pow256(3);
    assert Pow256(5) == 256 * Pow256(4);
    assert Pow256(6) == 256 * Pow256(5);
    assert Pow256(7) == 256 * Pow256(6);
  }
}
