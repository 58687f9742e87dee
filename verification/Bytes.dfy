/** Bytes, little-endian integers and zero padding, shared by both image formats. */
module Bytes {
  import opened Arith

  type byte = x: int | 0 <= x < 256

  type uint16 = x: int | 0 <= x < 0x1_0000

  function Zeros(n: nat): (z: seq<byte>)
    ensures |z| == n && forall i :: 0 <= i < n ==> z[i] == 0
  {
    seq(n, _ => 0)
  }

  /** The ASCII codes of a text. */
  function Ascii(text: string): (s: seq<byte>)
    requires forall i :: 0 <= i < |text| ==> text[i] as int < 128
    ensures |s| == |text| && forall i :: 0 <= i < |s| ==> s[i] == text[i] as int
  {
    seq(|text|, i requires 0 <= i < |text| => text[i] as int)
  }

  function Pow256(l: nat): (p: nat)
    ensures p >= 1
  {
    if l == 0 then 1 else 256 * Pow256(l - 1)
  }

  function LittleEndian(n: nat, l: nat): (s: seq<byte>)
    ensures |s| == l
  {
    if l == 0 then [] else [n % 256] + LittleEndian(n / 256, l - 1)
  }

  function FromLittleEndian(s: seq<byte>): nat {
    if s == [] then 0 else s[0] + 256 * FromLittleEndian(s[1..])
  }

  lemma {:induction false} Associative(a: seq<byte>, b: seq<byte>, c: seq<byte>)
    ensures (a + b) + c == a + (b + c)
  {
  }

  /** Decoding an encoded integer gives it back modulo the width of the field. */
  lemma {:induction false} DecodeEncode(n: nat, l: nat)
    ensures FromLittleEndian(LittleEndian(n, l)) == n % Pow256(l)
  {
    if l > 0 {
      DecodeEncode(n / 256, l - 1);
      ModSplit(n, 256, Pow256(l - 1));
      assert LittleEndian(n, l)[1..] == LittleEndian(n / 256, l - 1);
    }
  }

  lemma {:induction false} DecodeFits(n: nat, l: nat)
    requires n < Pow256(l)
    ensures FromLittleEndian(LittleEndian(n, l)) == n
  {
    DecodeEncode(n, l);
    DivModUnique(n, Pow256(l), 0, n);
  }

  /** Encoding a decoded byte string gives it back. */
  lemma {:induction false} EncodeDecode(s: seq<byte>)
    ensures FromLittleEndian(s) < Pow256(|s|)
    ensures LittleEndian(FromLittleEndian(s), |s|) == s
  {
    if s != [] {
      EncodeDecode(s[1..]);
      var t := FromLittleEndian(s[1..]);
      DivModUnique(s[0] + 256 * t, 256, t, s[0]);
      assert s == [s[0]] + s[1..];
    }
  }
}
