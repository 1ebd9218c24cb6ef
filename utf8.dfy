/**
  UTF-8 as defined by RFC 3629: the byte form that encodeURIComponent
  percent-escapes. A Dafny `char` is a Unicode scalar value (a code point
  outside the surrogate range), which is exactly the domain on which
  encodeURIComponent does not throw.
*/
module Utf8 {
  import opened Wrappers

  type Byte = b: int | 0 <= b < 256

  /** A code point that is not a surrogate (section 3 of RFC 3629). */
  predicate IsScalar(n: int) {
    0 <= n < 0xD800 || 0xE000 <= n <= 0x10FFFF
  }

  /** Number of bytes RFC 3629 uses for code point `n`. */
  function Width(n: int): nat {
    if n < 0x80 then 1 else if n < 0x800 then 2 else if n < 0x10000 then 3 else 4
  }

  /** Number of bytes announced by a lead byte, or 0 when `b` cannot start a sequence. */
  function LeadWidth(b: Byte): nat {
    if b < 0x80 then 1
    else if 0xC2 <= b < 0xE0 then 2
    else if 0xE0 <= b < 0xF0 then 3
    else if 0xF0 <= b <= 0xF4 then 4
    else 0
  }

  predicate IsContinuation(b: Byte) {
    0x80 <= b < 0xC0
  }

  /** The byte sequence of one scalar value: six payload bits per continuation byte. */
  function EncodeScalar(c: char): (bs: seq<Byte>)
    ensures |bs| == Width(c as int)
    ensures LeadWidth(bs[0]) == |bs|
    ensures forall i :: 1 <= i < |bs| ==> IsContinuation(bs[i])
  {
    var n := c as int;
    var n1 := n / 64;
    var n2 := n1 / 64;
    var n3 := n2 / 64;
    if n < 0x80 then [n]
    else if n < 0x800 then [0xC0 + n1, 0x80 + n % 64]
    else if n < 0x10000 then [0xE0 + n2, 0x80 + n1 % 64, 0x80 + n % 64]
    else [0xF0 + n3, 0x80 + n2 % 64, 0x80 + n1 % 64, 0x80 + n % 64]
  }

  /** The code point spelled by a lead byte and its continuation bytes. */
  function Assemble(bs: seq<Byte>): int
    requires 1 <= |bs| <= 4
  {
    if |bs| == 1 then bs[0] as int
    else if |bs| == 2 then (bs[0] as int - 0xC0) * 64 + (bs[1] as int - 0x80)
    else if |bs| == 3 then ((bs[0] as int - 0xE0) * 64 + (bs[1] as int - 0x80)) * 64 + (bs[2] as int - 0x80)
    else (((bs[0] as int - 0xF0) * 64 + (bs[1] as int - 0x80)) * 64 + (bs[2] as int - 0x80)) * 64 + (bs[3] as int - 0x80)
  }

  /**
    Decodes a byte sequence holding exactly one scalar value; rejects a bad
    lead byte, a missing continuation byte, an over-long form, a surrogate
    and anything above U+10FFFF.
  */
  function DecodeScalar(bs: seq<Byte>): Option<char> {
    if |bs| == 0 || LeadWidth(bs[0]) != |bs| then None
    else if exists i :: 1 <= i < |bs| && !IsContinuation(bs[i]) then None
    else
      var n := Assemble(bs);
      if IsScalar(n) && Width(n) == |bs| then Some(n as char) else None
  }

  lemma DecodeEncode(c: char)
    ensures DecodeScalar(EncodeScalar(c)) == Some(c)
  {
    var n := c as int;
    var n1 := n / 64;
    var n2 := n1 / 64;
    var n3 := n2 / 64;
    assert n == n1 * 64 + n % 64;
    assert n1 == n2 * 64 + n1 % 64;
    assert n2 == n3 * 64 + n2 % 64;
    assert Assemble(EncodeScalar(c)) == n;
  }

  lemma DivMod64(q: int, r: int)
    requires 0 <= r < 64
    ensures (q * 64 + r) / 64 == q && (q * 64 + r) % 64 == r
  {
  }

  /** The shortest form is the only form: whatever decodes to `c` is its encoding. */
  lemma EncodeDecode(bs: seq<Byte>, c: char)
    requires DecodeScalar(bs) == Some(c)
    ensures EncodeScalar(c) == bs
  {
    var n := c as int;
    assert n == Assemble(bs);
    if |bs| == 2 {
      assert IsContinuation(bs[1]);
      DivMod64(bs[0] as int - 0xC0, bs[1] as int - 0x80);
    } else if |bs| == 3 {
      assert IsContinuation(bs[1]) && IsContinuation(bs[2]);
      var hi := (bs[0] as int - 0xE0) * 64 + (bs[1] as int - 0x80);
      DivMod64(hi, bs[2] as int - 0x80);
      DivMod64(bs[0] as int - 0xE0, bs[1] as int - 0x80);
    } else if |bs| == 4 {
      assert IsContinuation(bs[1]) && IsContinuation(bs[2]) && IsContinuation(bs[3]);
      var top := (bs[0] as int - 0xF0) * 64 + (bs[1] as int - 0x80);
      var hi := top * 64 + (bs[2] as int - 0x80);
      DivMod64(hi, bs[3] as int - 0x80);
      DivMod64(top, bs[2] as int - 0x80);
      DivMod64(bs[0] as int - 0xF0, bs[1] as int - 0x80);
    }
  }
}
