/**
 * Byte-level arithmetic: fixed-width integer types, little- and big-endian
 * assembly of byte sequences, and the inverse encoders used to state
 * round trips.
 */
module Bytes {

  type byte = x: int | 0 <= x < 0x100
  type u16 = x: int | 0 <= x < 0x1_0000
  type u32 = x: int | 0 <= x < 0x1_0000_0000
  type i32 = x: int | -0x8000_0000 <= x < 0x8000_0000

  /** `BitConverter.IsLittleEndian`: the model fixes the host as little-endian (x86/x64). */
  const HostIsLittleEndian: bool := true

  function Pow256(n: nat): (r: nat)
    ensures r > 0
  {
    if n == 0 then 1 else 256 * Pow256(n - 1)
  }

  /** The value of `s` with `s[0]` the least significant byte. */
  function LittleEndian(s: seq<byte>): nat
  {
    if s == [] then 0 else s[0] + 256 * LittleEndian(s[1..])
  }

  /** The value of `s` with `s[0]` the most significant byte. */
  function BigEndian(s: seq<byte>): nat
  {
    if s == [] then 0 else 256 * BigEndian(s[..|s| - 1]) + s[|s| - 1]
  }

  /** `Array.Reverse`. */
  function Reverse(s: seq<byte>): (r: seq<byte>)
    ensures |r| == |s|
    ensures forall i :: 0 <= i < |s| ==> r[i] == s[|s| - 1 - i]
  {
    if s == [] then [] else [s[|s| - 1]] + Reverse(s[..|s| - 1])
  }

  /** The n-byte little-endian encoding of v (the low n bytes of v). */
  function EncodeLittle(v: nat, n: nat): (r: seq<byte>)
    ensures |r| == n
  {
    if n == 0 then [] else [v % 256] + EncodeLittle(v / 256, n - 1)
  }

  /** The n-byte big-endian encoding of v. */
  function EncodeBig(v: nat, n: nat): (r: seq<byte>)
    ensures |r| == n
  {
    if n == 0 then [] else EncodeBig(v / 256, n - 1) + [v % 256]
  }

  /** Two's-complement reading of an n-byte unsigned value. */
  function Signed(v: nat, n: nat): int
  {
    if v < Pow256(n) / 2 then v else v - Pow256(n)
  }

  lemma {:induction false} LittleEndianBound(s: seq<byte>)
    ensures LittleEndian(s) < Pow256(|s|)
  {
    if s != [] {
      LittleEndianBound(s[1..]);
    }
  }

  lemma {:induction false} BigEndianBound(s: seq<byte>)
    ensures BigEndian(s) < Pow256(|s|)
  {
    if s != [] {
      BigEndianBound(s[..|s| - 1]);
    }
  }

  /** Reading the reversed bytes little-endian is reading the bytes big-endian. */
  lemma {:induction false} ReversedLittleIsBig(s: seq<byte>)
    ensures LittleEndian(Reverse(s)) == BigEndian(s)
  {
    if s != [] {
      var r := Reverse(s);
      assert r[1..] == Reverse(s[..|s| - 1]);
      ReversedLittleIsBig(s[..|s| - 1]);
    }
  }

  /** Little-endian decoding inverts little-endian encoding for values that fit. */
  lemma {:induction false} LittleRoundTrip(v: nat, n: nat)
    requires v < Pow256(n)
    ensures LittleEndian(EncodeLittle(v, n)) == v
  {
    if n > 0 {
      LittleRoundTrip(v / 256, n - 1);
      assert EncodeLittle(v, n)[1..] == EncodeLittle(v / 256, n - 1);
    }
  }

  /** Big-endian decoding inverts big-endian encoding for values that fit. */
  lemma {:induction false} BigRoundTrip(v: nat, n: nat)
    requires v < Pow256(n)
    ensures BigEndian(EncodeBig(v, n)) == v
  {
    if n > 0 {
      BigRoundTrip(v / 256, n - 1);
      var e := EncodeBig(v, n);
      assert e[..|e| - 1] == EncodeBig(v / 256, n - 1);
    }
  }

  /** The big-endian encoding is the little-endian one read backwards. */
  lemma {:induction false} EncodeBigIsReversedLittle(v: nat, n: nat)
    ensures EncodeBig(v, n) == Reverse(EncodeLittle(v, n))
  {
    if n > 0 {
      EncodeBigIsReversedLittle(v / 256, n - 1);
    }
  }
}
