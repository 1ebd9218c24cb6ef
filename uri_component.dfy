/**
  encodeURIComponent as ECMA-262 defines it: ASCII letters, digits and the
  marks - _ . ! ~ * ' ( ) (the "unreserved" set of section 2.3 of RFC 2396)
  are copied; every other character is replaced by its UTF-8 bytes
  (RFC 3629), each written as a percent-encoded triple "%HH" with upper-case
  hex digits (section 2.1 of RFC 3986). The decoder is the inverse used to
  state the round trip.
*/
module UriComponent {
  import opened Wrappers
  import Utf8

  predicate IsAlphaNumeric(c: char) {
    'A' <= c <= 'Z' || 'a' <= c <= 'z' || '0' <= c <= '9'
  }

  predicate IsMark(c: char) {
    c in "-_.!~*'()"
  }

  /** The characters encodeURIComponent leaves as they are. */
  predicate IsUnreserved(c: char) {
    IsAlphaNumeric(c) || IsMark(c)
  }

  predicate IsHexDigit(c: char) {
    '0' <= c <= '9' || 'A' <= c <= 'F' || 'a' <= c <= 'f'
  }

  function HexValue(c: char): (n: nat)
    requires IsHexDigit(c)
    ensures n < 16
  {
    if '0' <= c <= '9' then c as int - '0' as int
    else if 'A' <= c <= 'F' then c as int - 'A' as int + 10
    else c as int - 'a' as int + 10
  }

  /** The upper-case hex digit that encodeURIComponent writes for `n`. */
  function HexDigit(n: nat): (c: char)
    requires n < 16
    ensures IsHexDigit(c) && HexValue(c) == n
  {
    "0123456789ABCDEF"[n]
  }

  /** One byte as a "%HH" triple. */
  function Escape(b: Utf8.Byte): string {
    ['%', HexDigit(b / 16), HexDigit(b % 16)]
  }

  function EscapeAll(bs: seq<Utf8.Byte>): (t: string)
    ensures |t| == 3 * |bs|
  {
    if bs == [] then [] else Escape(bs[0]) + EscapeAll(bs[1..])
  }

  /** What encodeURIComponent writes for one character. */
  function EncodeChar(c: char): string {
    if IsUnreserved(c) then [c] else EscapeAll(Utf8.EncodeScalar(c))
  }

  /** encodeURIComponent, as a specification: the characters' encodings, in order. */
  function Encode(s: string): string {
    if s == [] then [] else EncodeChar(s[0]) + Encode(s[1..])
  }

  /**
    The shape of an encoded value: unreserved characters and "%HH" triples,
    nothing else (so no '&', '=', '?', '#', '+' or space can occur in it).
  */
  predicate WellFormed(t: string) {
    if t == [] then true
    else if IsUnreserved(t[0]) then WellFormed(t[1..])
    else |t| >= 3 && t[0] == '%' && IsHexDigit(t[1]) && IsHexDigit(t[2]) && WellFormed(t[3..])
  }

  /** The loop encodeURIComponent runs: one character at a time, appending its encoding. */
  method EncodeUriComponent(s: string) returns (r: string)
    ensures r == Encode(s)
  {
    r := [];
    var k := 0;
    while k < |s|
      invariant 0 <= k <= |s|
      invariant r == Encode(s[..k])
    {
      EncodeAppend(s[..k], s[k]);
      assert s[..k + 1] == s[..k] + [s[k]];
      r := r + EncodeChar(s[k]);
      k := k + 1;
    }
    assert s[..k] == s;
  }

  lemma {:induction false} EncodeAppend(s: string, c: char)
    ensures Encode(s + [c]) == Encode(s) + EncodeChar(c)
  {
    if s == [] {
      assert Encode([c]) == EncodeChar(c) + Encode([]);
    } else {
      assert (s + [c])[1..] == s[1..] + [c];
      EncodeAppend(s[1..], c);
    }
  }

  // ---------------------------------------------------------------------
  // Decoding: the inverse of Encode.

  /** The byte of a "%HH" triple at the head of `t`. */
  function ReadByte(t: string): Option<Utf8.Byte> {
    if |t| >= 3 && t[0] == '%' && IsHexDigit(t[1]) && IsHexDigit(t[2])
    then Some(HexValue(t[1]) * 16 + HexValue(t[2]))
    else None
  }

  /** The bytes of `k` consecutive "%HH" triples at the head of `t`. */
  function ReadBytes(t: string, k: nat): (r: Option<seq<Utf8.Byte>>)
    ensures r.Some? ==> |r.value| == k && 3 * k <= |t|
  {
    if k == 0 then Some([])
    else match ReadByte(t)
      case None => None
      case Some(b) =>
        match ReadBytes(t[3..], k - 1)
        case None => None
        case Some(bs) => Some([b] + bs)
  }

  /** Decodes the character at the head of `t` and returns it with what follows. */
  function DecodeOne(t: string): (r: Option<(char, string)>)
    requires t != []
    ensures r.Some? ==> |r.value.1| < |t|
  {
    if t[0] != '%' then Some((t[0], t[1..]))
    else match ReadByte(t)
      case None => None
      case Some(lead) =>
        var w := Utf8.LeadWidth(lead);
        if w == 0 then None
        else match ReadBytes(t, w)
          case None => None
          case Some(bs) =>
            match Utf8.DecodeScalar(bs)
            case None => None
            case Some(c) => Some((c, t[3 * w..]))
  }

  /** Percent-decoding; None for a malformed escape or invalid UTF-8. */
  function Decode(t: string): Option<string>
    decreases |t|
  {
    if t == [] then Some([])
    else match DecodeOne(t)
      case None => None
      case Some((c, rest)) =>
        match Decode(rest)
        case None => None
        case Some(s) => Some([c] + s)
  }

  lemma ReadEscape(b: Utf8.Byte, rest: string)
    ensures ReadByte(Escape(b) + rest) == Some(b)
  {
  }

  lemma {:induction false} ReadEscapeAll(bs: seq<Utf8.Byte>, rest: string)
    ensures ReadBytes(EscapeAll(bs) + rest, |bs|) == Some(bs)
  {
    if bs != [] {
      var t := EscapeAll(bs) + rest;
      assert t == Escape(bs[0]) + (EscapeAll(bs[1..]) + rest);
      ReadEscape(bs[0], EscapeAll(bs[1..]) + rest);
      assert t[3..] == EscapeAll(bs[1..]) + rest;
      ReadEscapeAll(bs[1..], rest);
      assert [bs[0]] + bs[1..] == bs;
    }
  }

  lemma DecodeOneEncodeChar(c: char, rest: string)
    ensures EncodeChar(c) != []
    ensures DecodeOne(EncodeChar(c) + rest) == Some((c, rest))
  {
    if !IsUnreserved(c) {
      var bs := Utf8.EncodeScalar(c);
      var t := EncodeChar(c) + rest;
      assert t == Escape(bs[0]) + (EscapeAll(bs[1..]) + rest);
      ReadEscape(bs[0], EscapeAll(bs[1..]) + rest);
      ReadEscapeAll(bs, rest);
      Utf8.DecodeEncode(c);
      assert t[3 * |bs|..] == rest;
    }
  }

  /** Percent-decoding undoes encodeURIComponent. */
  lemma {:induction false} DecodeEncode(s: string)
    ensures Decode(Encode(s)) == Some(s)
  {
    if s != [] {
      DecodeOneEncodeChar(s[0], Encode(s[1..]));
      DecodeEncode(s[1..]);
      assert [s[0]] + s[1..] == s;
    }
  }

  /** Distinct values never share an encoding. */
  lemma EncodeInjective(s: string, s': string)
    requires Encode(s) == Encode(s')
    ensures s == s'
  {
    DecodeEncode(s);
    DecodeEncode(s');
  }

  // ---------------------------------------------------------------------
  // The shape of encoded text.

  lemma {:induction false} WellFormedConcat(t: string, u: string)
    requires WellFormed(t) && WellFormed(u)
    ensures WellFormed(t + u)
  {
    if t != [] {
      assert (t + u)[0] == t[0];
      if IsUnreserved(t[0]) {
        assert (t + u)[1..] == t[1..] + u;
        WellFormedConcat(t[1..], u);
      } else {
        assert (t + u)[1] == t[1] && (t + u)[2] == t[2];
        assert (t + u)[3..] == t[3..] + u;
        WellFormedConcat(t[3..], u);
      }
    } else {
      assert t + u == u;
    }
  }

  lemma {:induction false} EscapeAllWellFormed(bs: seq<Utf8.Byte>)
    ensures WellFormed(EscapeAll(bs))
  {
    if bs != [] {
      EscapeAllWellFormed(bs[1..]);
      var t := EscapeAll(bs);
      assert t[3..] == EscapeAll(bs[1..]);
    }
  }

  /** Every encoding consists of unreserved characters and "%HH" triples only. */
  lemma {:induction false} EncodeWellFormed(s: string)
    ensures WellFormed(Encode(s))
  {
    if s != [] {
      if !IsUnreserved(s[0]) {
        EscapeAllWellFormed(Utf8.EncodeScalar(s[0]));
      }
      EncodeWellFormed(s[1..]);
      WellFormedConcat(EncodeChar(s[0]), Encode(s[1..]));
    }
  }

  /** A well-formed text holds no character outside the unreserved set, '%' and hex digits. */
  lemma {:induction false} WellFormedChars(t: string, i: nat)
    requires WellFormed(t) && i < |t|
    ensures IsUnreserved(t[i]) || t[i] == '%' || IsHexDigit(t[i])
  {
    if IsUnreserved(t[0]) {
      if i > 0 { WellFormedChars(t[1..], i - 1); }
    } else if i >= 3 {
      WellFormedChars(t[3..], i - 3);
    }
  }

  /** The query delimiters never appear in an encoded value. */
  lemma EncodeHasNoDelimiters(s: string)
    ensures forall i :: 0 <= i < |Encode(s)| ==> Encode(s)[i] !in "&=?#+ "
  {
    EncodeWellFormed(s);
    forall i | 0 <= i < |Encode(s)|
      ensures Encode(s)[i] !in "&=?#+ "
    {
      WellFormedChars(Encode(s), i);
    }
  }

  // ---------------------------------------------------------------------
  // When the encoding leaves a value as it is.

  lemma EncodeCharLength(c: char)
    ensures |EncodeChar(c)| == 1 <==> IsUnreserved(c)
    ensures |EncodeChar(c)| >= 1
  {
    if !IsUnreserved(c) {
      assert |Utf8.EncodeScalar(c)| >= 1;
    }
  }

  lemma {:induction false} EncodeLength(s: string)
    ensures |Encode(s)| >= |s|
    ensures |Encode(s)| == |s| <==> forall i :: 0 <= i < |s| ==> IsUnreserved(s[i])
  {
    if s != [] {
      EncodeCharLength(s[0]);
      EncodeLength(s[1..]);
      if forall i :: 0 <= i < |s| ==> IsUnreserved(s[i]) {
        assert forall i :: 0 <= i < |s[1..]| ==> IsUnreserved(s[1..][i]) by {
          forall i | 0 <= i < |s[1..]| ensures IsUnreserved(s[1..][i]) {
            assert s[1..][i] == s[i + 1];
          }
        }
      } else if IsUnreserved(s[0]) {
        var j :| 0 <= j < |s| && !IsUnreserved(s[j]);
        assert s[1..][j - 1] == s[j];
      }
    }
  }

  /** A value is sent verbatim exactly when it consists of unreserved characters. */
  lemma {:induction false} EncodeIdentity(s: string)
    ensures Encode(s) == s <==> forall i :: 0 <= i < |s| ==> IsUnreserved(s[i])
  {
    EncodeLength(s);
    if s != [] && forall i :: 0 <= i < |s| ==> IsUnreserved(s[i]) {
      assert forall i :: 0 <= i < |s[1..]| ==> IsUnreserved(s[1..][i]) by {
        forall i | 0 <= i < |s[1..]| ensures IsUnreserved(s[1..][i]) {
          assert s[1..][i] == s[i + 1];
        }
      }
      EncodeIdentity(s[1..]);
    }
  }
}
