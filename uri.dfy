/**
 * `encodeURIComponent` (ECMA-262, section 19.2.6.5 "encodeURIComponent"):
 * characters of the unescaped set pass through, every other character is
 * written as the UTF-8 encoding of its code point, one `%XX` triplet per
 * byte with upper-case hexadecimal digits (the percent-encoding of section
 * 2.1 of RFC 3986). A Dafny `char` is a Unicode scalar value, so the input
 * never holds a lone surrogate and the encoder never fails.
 *
 * `Decode` is an independent reference decoder (what `decodeURIComponent`
 * does on well-formed input); the round trip `Decode(Encode(s)) == Some(s)`
 * says the encoding loses nothing.
 */
module UriComponent {
  import opened Wrappers

  type Byte = b: int | 0 <= b < 256

  /** The set encodeURIComponent leaves as it is: ASCII letters, digits and `-_.!~*'()`. */
  predicate IsUnescaped(c: char) {
    || ('A' <= c <= 'Z') || ('a' <= c <= 'z') || ('0' <= c <= '9')
    || c == '-' || c == '_' || c == '.' || c == '!' || c == '~' || c == '*' || c == '\'' || c == '(' || c == ')'
  }

  /** An upper-case hexadecimal digit. */
  predicate IsHexDigit(c: char) {
    ('0' <= c <= '9') || ('A' <= c <= 'F')
  }

  /** The characters an encoded component can hold. */
  predicate IsEncodedChar(c: char) {
    IsUnescaped(c) || c == '%' || IsHexDigit(c)
  }

  /** Every `%` opens a triplet: it is followed by two upper-case hexadecimal digits. */
  predicate TripletsWellFormed(t: string) {
    forall k :: 0 <= k < |t| && t[k] == '%' ==> k + 2 < |t| && IsHexDigit(t[k + 1]) && IsHexDigit(t[k + 2])
  }

  function HexDigit(d: int): (c: char)
    requires 0 <= d < 16
    ensures IsHexDigit(c)
  {
    if d < 10 then ('0' as int + d) as char else ('A' as int + d - 10) as char
  }

  /** The value of a hexadecimal digit of either case. */
  function HexValue(c: char): (v: Option<int>)
    ensures v.Some? ==> 0 <= v.value < 16
  {
    if '0' <= c <= '9' then Some(c as int - '0' as int)
    else if 'A' <= c <= 'F' then Some(c as int - 'A' as int + 10)
    else if 'a' <= c <= 'f' then Some(c as int - 'a' as int + 10)
    else None
  }

  lemma HexValueOfDigit(d: int)
    requires 0 <= d < 16
    ensures HexValue(HexDigit(d)) == Some(d)
  {
  }

  /** The UTF-8 encoding of one scalar value (1 to 4 bytes). */
  function Utf8(c: char): (bs: seq<Byte>)
    ensures 1 <= |bs| <= 4
    ensures |bs| == 1 <==> c as int < 0x80
  {
    var n := c as int;
    var n1 := n / 64;
    var n2 := n1 / 64;
    var n3 := n2 / 64;
    if n < 0x80 then [n]
    else if n < 0x800 then [0xC0 + n1, 0x80 + n % 64]
    else if n < 0x10000 then [0xE0 + n2, 0x80 + n1 % 64, 0x80 + n % 64]
    else [0xF0 + n3, 0x80 + n2 % 64, 0x80 + n1 % 64, 0x80 + n % 64]
  }

  /** One `%XX` triplet per byte. */
  function PercentBytes(bs: seq<Byte>): (t: string)
    ensures |t| == 3 * |bs|
    ensures forall k :: 0 <= k < |t| ==> t[k] == '%' || IsHexDigit(t[k])
  {
    if bs == [] then []
    else ['%', HexDigit(bs[0] / 16), HexDigit(bs[0] % 16)] + PercentBytes(bs[1..])
  }

  function EncodeChar(c: char): (t: string)
    ensures forall k :: 0 <= k < |t| ==> IsEncodedChar(t[k])
  {
    if IsUnescaped(c) then [c] else PercentBytes(Utf8(c))
  }

  /** encodeURIComponent. */
  function Encode(s: string): (t: string)
    ensures forall k :: 0 <= k < |t| ==> IsEncodedChar(t[k])
  {
    if s == [] then [] else EncodeChar(s[0]) + Encode(s[1..])
  }

  /** Encoding works character by character. */
  lemma {:induction false} EncodeAppend(a: string, b: string)
    ensures Encode(a + b) == Encode(a) + Encode(b)
  {
    if a == [] {
      assert a + b == b;
    } else {
      assert (a + b)[0] == a[0];
      assert (a + b)[1..] == a[1..] + b;
      EncodeAppend(a[1..], b);
    }
  }

  /** Unescaped characters pass through unchanged. */
  lemma {:induction false} EncodeUnescaped(s: string)
    requires forall k :: 0 <= k < |s| ==> IsUnescaped(s[k])
    ensures Encode(s) == s
  {
    if s != [] {
      EncodeUnescaped(s[1..]);
      assert s == [s[0]] + s[1..];
    }
  }

  /** The triplets of one byte sequence are well formed. */
  lemma {:induction false} PercentBytesTriplets(bs: seq<Byte>)
    ensures TripletsWellFormed(PercentBytes(bs))
  {
    if bs != [] {
      PercentBytesTriplets(bs[1..]);
      var head := ['%', HexDigit(bs[0] / 16), HexDigit(bs[0] % 16)];
      var rest := PercentBytes(bs[1..]);
      assert PercentBytes(bs) == head + rest;
      TripletsAppend(head, rest);
    }
  }

  lemma TripletsAppend(a: string, b: string)
    requires TripletsWellFormed(a) && TripletsWellFormed(b)
    ensures TripletsWellFormed(a + b)
  {
    forall k | 0 <= k < |a + b| && (a + b)[k] == '%'
      ensures k + 2 < |a + b| && IsHexDigit((a + b)[k + 1]) && IsHexDigit((a + b)[k + 2])
    {
      if k < |a| {
        assert a[k] == '%';
      } else {
        assert b[k - |a|] == '%';
      }
    }
  }

  /** Every `%` that encodeURIComponent writes is followed by two upper-case hexadecimal digits. */
  lemma {:induction false} EncodeTriplets(s: string)
    ensures TripletsWellFormed(Encode(s))
  {
    if s != [] {
      EncodeTriplets(s[1..]);
      if !IsUnescaped(s[0]) {
        PercentBytesTriplets(Utf8(s[0]));
      }
      TripletsAppend(EncodeChar(s[0]), Encode(s[1..]));
    }
  }

  /** A space is written as `%20`. */
  lemma EncodeSpace()
    ensures Encode(" ") == "%20"
  {
    assert Utf8(' ') == [32];
    assert HexDigit(32 / 16) == '2' && HexDigit(32 % 16) == '0';
  }

  /** A reserved character such as `&` or `=` never survives encoding. */
  lemma EncodeHidesSeparators(s: string)
    ensures '&' !in Encode(s) && '=' !in Encode(s)
  {
  }

  // ----- reference decoder -----

  /** The byte written as `%XX` at the front of `t`, if there is one. */
  function PercentByte(t: string): (b: Option<Byte>)
  {
    if |t| >= 3 && t[0] == '%' && HexValue(t[1]).Some? && HexValue(t[2]).Some?
    then Some(16 * HexValue(t[1]).value + HexValue(t[2]).value)
    else None
  }

  /** `n` bytes written as consecutive `%XX` triplets at the front of `t`. */
  function PercentByteRun(t: string, n: nat): (r: Option<seq<Byte>>)
    ensures r.Some? ==> |r.value| == n && 3 * n <= |t|
  {
    if n == 0 then Some([])
    else match PercentByte(t)
      case None => None
      case Some(b) =>
        match PercentByteRun(t[3..], n - 1)
        case None => None
        case Some(bs) => Some([b] + bs)
  }

  /** The length of the UTF-8 sequence a leading byte announces, 0 if it is not a leading byte. */
  function Utf8Length(b: Byte): nat {
    if b < 0x80 then 1
    else if 0xC0 <= b < 0xE0 then 2
    else if 0xE0 <= b < 0xF0 then 3
    else if 0xF0 <= b < 0xF8 then 4
    else 0
  }

  predicate IsContinuation(b: Byte) {
    0x80 <= b < 0xC0
  }

  function ScalarValue(n: int): Option<char> {
    if 0 <= n < 0xD800 || 0xE000 <= n < 0x110000 then Some(n as char) else None
  }

  /** The scalar value a complete UTF-8 sequence stands for. */
  function Utf8Decode(bs: seq<Byte>): Option<char> {
    if |bs| == 1 && bs[0] < 0x80 then ScalarValue(bs[0])
    else if |bs| == 2 && 0xC0 <= bs[0] < 0xE0 && IsContinuation(bs[1]) then
      ScalarValue(Payload(bs[0], 0xC0) * 64 + Payload(bs[1], 0x80))
    else if |bs| == 3 && 0xE0 <= bs[0] < 0xF0 && IsContinuation(bs[1]) && IsContinuation(bs[2]) then
      ScalarValue((Payload(bs[0], 0xE0) * 64 + Payload(bs[1], 0x80)) * 64 + Payload(bs[2], 0x80))
    else if |bs| == 4 && 0xF0 <= bs[0] < 0xF8 && IsContinuation(bs[1]) && IsContinuation(bs[2])
            && IsContinuation(bs[3]) then
      ScalarValue(((Payload(bs[0], 0xF0) * 64 + Payload(bs[1], 0x80)) * 64
                   + Payload(bs[2], 0x80)) * 64 + Payload(bs[3], 0x80))
    else None
  }

  /** The bits of a UTF-8 byte below its marker bits. */
  function Payload(b: Byte, marker: Byte): int {
    b as int - marker as int
  }

  /** The first character of a non-empty encoded text and how many characters it took. */
  function DecodeFirst(t: string): (r: Option<(char, nat)>)
    requires t != []
    ensures r.Some? ==> 1 <= r.value.1 <= |t|
  {
    if t[0] != '%' then Some((t[0], 1))
    else match PercentByte(t)
      case None => None
      case Some(b) =>
        var n := Utf8Length(b);
        if n == 0 then None
        else match PercentByteRun(t, n)
          case None => None
          case Some(bs) =>
            match Utf8Decode(bs)
            case None => None
            case Some(c) => Some((c, 3 * n))
  }

  /** decodeURIComponent on well-formed input; `None` where it would throw URIError. */
  function Decode(t: string): Option<string>
    decreases |t|
  {
    if t == [] then Some([])
    else match DecodeFirst(t)
      case None => None
      case Some((c, k)) =>
        match Decode(t[k..])
        case None => None
        case Some(rest) => Some([c] + rest)
  }

  // ----- the round trip -----

  lemma {:induction false} PercentByteRunOfBytes(bs: seq<Byte>, rest: string)
    ensures PercentByteRun(PercentBytes(bs) + rest, |bs|) == Some(bs)
  {
    if bs != [] {
      var t := PercentBytes(bs) + rest;
      HexValueOfDigit(bs[0] / 16);
      HexValueOfDigit(bs[0] % 16);
      assert t[..3] == ['%', HexDigit(bs[0] / 16), HexDigit(bs[0] % 16)];
      assert PercentByte(t) == Some(bs[0]);
      assert t[3..] == PercentBytes(bs[1..]) + rest;
      PercentByteRunOfBytes(bs[1..], rest);
      assert bs == [bs[0]] + bs[1..];
    }
  }

  /** UTF-8 decoding inverts UTF-8 encoding. */
  lemma Utf8RoundTrip(c: char)
    ensures Utf8Length(Utf8(c)[0]) == |Utf8(c)|
    ensures Utf8Decode(Utf8(c)) == Some(c)
  {
    var n := c as int;
    var n1 := n / 64;
    var n2 := n1 / 64;
    var n3 := n2 / 64;
    assert n == n1 * 64 + n % 64;
    assert n1 == n2 * 64 + n1 % 64;
    assert n2 == n3 * 64 + n2 % 64;
    assert ScalarValue(n) == Some(c);
  }

  lemma DecodeFirstEncodeChar(c: char, rest: string)
    ensures DecodeFirst(EncodeChar(c) + rest) == Some((c, |EncodeChar(c)|))
  {
    var t := EncodeChar(c) + rest;
    if IsUnescaped(c) {
      assert t[0] == c;
    } else {
      var bs := Utf8(c);
      assert EncodeChar(c) == PercentBytes(bs);
      PercentByteRunOfBytes(bs, rest);
      PercentByteRunOfBytes([bs[0]], PercentBytes(bs[1..]) + rest);
      assert PercentBytes(bs) == PercentBytes([bs[0]]) + PercentBytes(bs[1..]);
      assert PercentByte(t) == Some(bs[0]);
      Utf8RoundTrip(c);
    }
  }

  /** Decoding an encoded component gives back the original text. */
  lemma {:induction false} DecodeEncode(s: string)
    ensures Decode(Encode(s)) == Some(s)
  {
    if s != [] {
      var e := EncodeChar(s[0]);
      var rest := Encode(s[1..]);
      var t := e + rest;
      assert Encode(s) == t;
      DecodeFirstEncodeChar(s[0], rest);
      assert t != [] && DecodeFirst(t) == Some((s[0], |e|));
      assert t[|e|..] == rest;
      DecodeEncode(s[1..]);
      assert Decode(t) == Some([s[0]] + s[1..]);
      assert s == [s[0]] + s[1..];
    }
  }
}
