// Which byte sequences are strings: well-formed UTF-8 (section 4 of RFC 3629).
module Utf8Text {
  import opened Bytes

  predicate Tail(b: byte) {
    0x80 <= b <= 0xBF
  }

  // The length of the encoded character s starts with, 0 if there is none.
  function CharLength(s: seq<byte>): (n: nat)
    ensures n <= |s|
  {
    if |s| >= 1 && s[0] <= 0x7F then 1
    else if |s| >= 2 && 0xC2 <= s[0] <= 0xDF && Tail(s[1]) then 2
    else if |s| >= 3 && ThreeByteLead(s[0], s[1]) && Tail(s[2]) then 3
    else if |s| >= 4 && FourByteLead(s[0], s[1]) && Tail(s[2]) && Tail(s[3]) then 4
    else 0
  }

  predicate ThreeByteLead(a: byte, b: byte) {
    || (a == 0xE0 && 0xA0 <= b <= 0xBF)
    || ((0xE1 <= a <= 0xEC || 0xEE <= a <= 0xEF) && Tail(b))
    || (a == 0xED && 0x80 <= b <= 0x9F)
  }

  predicate FourByteLead(a: byte, b: byte) {
    || (a == 0xF0 && 0x90 <= b <= 0xBF)
    || (0xF1 <= a <= 0xF3 && Tail(b))
    || (a == 0xF4 && 0x80 <= b <= 0x8F)
  }

  predicate Utf8(s: seq<byte>)
    decreases |s|
  {
    s == [] || (CharLength(s) > 0 && Utf8(s[CharLength(s)..]))
  }

  predicate Ascii(s: seq<byte>) {
    forall i :: 0 <= i < |s| ==> s[i] < 0x80
  }

  // An ASCII prefix neither makes nor breaks well-formedness.
  lemma {:induction false} AsciiPrefix(a: seq<byte>, s: seq<byte>)
    requires Ascii(a)
    ensures Utf8(a + s) <==> Utf8(s)
  {
    if a == [] {
      assert a + s == s;
    } else {
      AsciiPrefix(a[1..], s);
      assert (a + s)[1..] == a[1..] + s;
    }
  }

  // `from_utf8(s).unwrap_or("")`
  function FromUtf8(s: seq<byte>): seq<byte> {
    if Utf8(s) then s else []
  }

  ////////////// Code points //////////////

  // A Unicode scalar value: a code point that is no surrogate.
  predicate Scalar(c: nat) {
    c <= 0x10FFFF && !(0xD800 <= c <= 0xDFFF)
  }

  function EncodeChar(c: nat): seq<byte>
    requires Scalar(c)
  {
    if c < 0x80 then [c]
    else if c < 0x800 then [0xC0 + c / 0x40, 0x80 + c % 0x40]
    else if c < 0x1_0000 then [0xE0 + c / 0x1000, 0x80 + c / 0x40 % 0x40, 0x80 + c % 0x40]
    else [0xF0 + c / 0x4_0000, 0x80 + c / 0x1000 % 0x40, 0x80 + c / 0x40 % 0x40, 0x80 + c % 0x40]
  }

  ghost predicate Scalars(cs: seq<nat>) {
    forall i :: 0 <= i < |cs| ==> Scalar(cs[i])
  }

  function Encode(cs: seq<nat>): seq<byte>
    requires Scalars(cs)
  {
    if cs == [] then [] else EncodeChar(cs[0]) + Encode(cs[1..])
  }

  lemma EncodedLength(c: nat, s: seq<byte>)
    requires Scalar(c)
    ensures CharLength(EncodeChar(c) + s) == |EncodeChar(c)| > 0
  {
    if 0x800 <= c < 0x1_0000 {
      var a, b := 0xE0 + c / 0x1000, 0x80 + c / 0x40 % 0x40;
      assert ThreeByteLead(a, b);
    } else if c >= 0x1_0000 {
      var a, b := 0xF0 + c / 0x4_0000, 0x80 + c / 0x1000 % 0x40;
      assert FourByteLead(a, b);
    }
  }

  lemma Decoded(s: seq<byte>) returns (c: nat)
    requires CharLength(s) > 0
    ensures Scalar(c) && EncodeChar(c) == s[..CharLength(s)]
  {
    var n := CharLength(s);
    if n == 1 {
      c := s[0];
    } else if n == 2 {
      c := DecodedTwo(s[0], s[1]);
    } else if n == 3 {
      c := DecodedThree(s[0], s[1], s[2]);
    } else {
      c := DecodedFour(s[0], s[1], s[2], s[3]);
    }
  }

  lemma DecodedTwo(a: byte, b: byte) returns (c: nat)
    requires 0xC2 <= a <= 0xDF && Tail(b)
    ensures Scalar(c) && EncodeChar(c) == [a, b]
  {
    c := (a - 0xC0) * 0x40 + (b - 0x80);
  }

  lemma DecodedThree(a: byte, b: byte, d: byte) returns (c: nat)
    requires ThreeByteLead(a, b) && Tail(d)
    ensures Scalar(c) && EncodeChar(c) == [a, b, d]
  {
    c := (a - 0xE0) * 0x1000 + (b - 0x80) * 0x40 + (d - 0x80);
    assert c / 0x40 == (a - 0xE0) * 0x40 + (b - 0x80);
  }

  lemma DecodedFour(a: byte, b: byte, d: byte, e: byte) returns (c: nat)
    requires FourByteLead(a, b) && Tail(d) && Tail(e)
    ensures Scalar(c) && EncodeChar(c) == [a, b, d, e]
  {
    c := (a - 0xF0) * 0x4_0000 + (b - 0x80) * 0x1000 + (d - 0x80) * 0x40 + (e - 0x80);
    assert c / 0x1000 == (a - 0xF0) * 0x40 + (b - 0x80);
    assert c / 0x40 == (a - 0xF0) * 0x1000 + (b - 0x80) * 0x40 + (d - 0x80);
  }

  lemma {:induction false} EncodedIsUtf8(cs: seq<nat>)
    requires Scalars(cs)
    ensures Utf8(Encode(cs))
  {
    if cs != [] {
      EncodedIsUtf8(cs[1..]);
      EncodedLength(cs[0], Encode(cs[1..]));
      hide EncodeChar, CharLength;
      var s := Encode(cs);
      assert s[CharLength(s)..] == Encode(cs[1..]);
    }
  }

  // The strings are exactly the encodings of sequences of scalar values.
  lemma {:induction false} Utf8Iff(s: seq<byte>)
    ensures Utf8(s) <==> exists cs :: Scalars(cs) && Encode(cs) == s
    decreases |s|
  {
    hide EncodeChar, CharLength, Scalar;
    if s == [] {
      assert Scalars([]) && Encode([]) == s;
    } else if Utf8(s) {
      var c := Decoded(s);
      var rest := s[CharLength(s)..];
      Utf8Iff(rest);
      var cs :| Scalars(cs) && Encode(cs) == rest;
      assert ([c] + cs)[1..] == cs;
      assert Scalars([c] + cs) && Encode([c] + cs) == s;
    }
    forall cs | Scalars(cs) && Encode(cs) == s ensures Utf8(s) { EncodedIsUtf8(cs); }
  }
}
