/** JavaScript's `encodeURIComponent`: every character outside the unreserved
    set is written as the percent-escaped bytes of its UTF-8 encoding. A
    percent decoder serves as the reference: it recovers the UTF-8 bytes. */
module UriComponent {
  import opened Text

  /** The characters `encodeURIComponent` leaves as they are. */
  predicate Unreserved(c: char)
  {
    || ('A' <= c <= 'Z') || ('a' <= c <= 'z') || ('0' <= c <= '9')
    || c == '-' || c == '_' || c == '.' || c == '!' || c == '~'
    || c == '*' || c == '\'' || c == '(' || c == ')'
  }

  /** The UTF-8 encoding of one Unicode scalar value. */
  function Utf8(c: char): (bytes: seq<nat>)
    ensures 1 <= |bytes| <= 4
    ensures forall i :: 0 <= i < |bytes| ==> bytes[i] < 256
    ensures c as int < 0x80 <==> |bytes| == 1
  {
    var n := c as int;
    if n < 0x80 then [n]
    else if n < 0x800 then [0xC0 + n / 64, 0x80 + n % 64]
    else if n < 0x10000 then [0xE0 + n / 4096, 0x80 + (n / 64) % 64, 0x80 + n % 64]
    else [0xF0 + n / 262144, 0x80 + (n / 4096) % 64, 0x80 + (n / 64) % 64, 0x80 + n % 64]
  }

  /** The UTF-8 encoding of a text. */
  function Utf8Bytes(s: string): seq<nat>
  {
    if s == [] then [] else Utf8(s[0]) + Utf8Bytes(s[1..])
  }

  function HexDigit(d: nat): (c: char)
    requires d < 16
  {
    if d < 10 then ('0' as int + d) as char else ('A' as int + d - 10) as char
  }

  predicate IsHexDigit(c: char)
  {
    ('0' <= c <= '9') || ('A' <= c <= 'F')
  }

  function HexValue(c: char): nat
  {
    if '0' <= c <= '9' then c as int - '0' as int
    else if 'A' <= c <= 'F' then c as int - 'A' as int + 10
    else 0
  }

  lemma HexDigitValue(d: nat)
    requires d < 16
    ensures IsHexDigit(HexDigit(d)) && HexValue(HexDigit(d)) == d
  {
  }

  /** `%XY` for one byte, upper-case hexadecimal. */
  function EscapeByte(b: nat): string
    requires b < 256
  {
    ['%', HexDigit(b / 16), HexDigit(b % 16)]
  }

  function EscapeBytes(bytes: seq<nat>): string
    requires forall i :: 0 <= i < |bytes| ==> bytes[i] < 256
  {
    if bytes == [] then [] else EscapeByte(bytes[0]) + EscapeBytes(bytes[1..])
  }

  function EncodeChar(c: char): string
  {
    if Unreserved(c) then [c] else EscapeBytes(Utf8(c))
  }

  /** `encodeURIComponent(s)`. */
  function Encode(s: string): string
  {
    if s == [] then [] else EncodeChar(s[0]) + Encode(s[1..])
  }

  /** What may appear in an encoded component. */
  predicate UrlSafe(c: char)
  {
    Unreserved(c) || c == '%' || IsHexDigit(c)
  }

  predicate AllUrlSafe(s: string)
  {
    forall i :: 0 <= i < |s| ==> UrlSafe(s[i])
  }

  lemma AllUrlSafeConcat(a: string, b: string)
    requires AllUrlSafe(a) && AllUrlSafe(b)
    ensures AllUrlSafe(a + b)
  {
    forall i | 0 <= i < |a + b| ensures UrlSafe((a + b)[i]) {
      if i >= |a| {
        assert (a + b)[i] == b[i - |a|];
      }
    }
  }

  lemma {:induction false} EscapeBytesSafe(bytes: seq<nat>)
    requires forall i :: 0 <= i < |bytes| ==> bytes[i] < 256
    ensures AllUrlSafe(EscapeBytes(bytes))
  {
    if bytes != [] {
      EscapeBytesSafe(bytes[1..]);
      HexDigitValue(bytes[0] / 16);
      HexDigitValue(bytes[0] % 16);
      AllUrlSafeConcat(EscapeByte(bytes[0]), EscapeBytes(bytes[1..]));
    }
  }

  /** The encoded text uses only unreserved characters, `%` and hexadecimal
      digits: no `&`, `=`, `#`, `?`, `/` or space can end the query parameter. */
  lemma {:induction false} EncodeIsUrlSafe(s: string)
    ensures AllUrlSafe(Encode(s))
  {
    if s != [] {
      EncodeIsUrlSafe(s[1..]);
      if !Unreserved(s[0]) {
        EscapeBytesSafe(Utf8(s[0]));
      }
      AllUrlSafeConcat(EncodeChar(s[0]), Encode(s[1..]));
    }
  }

  /** Percent decoding into bytes: `%XY` is the byte XY, any other character
      stands for its own code. */
  function Decode(s: string): seq<nat>
  {
    if |s| >= 3 && s[0] == '%' then [HexValue(s[1]) * 16 + HexValue(s[2])] + Decode(s[3..])
    else if s == [] then []
    else [s[0] as int] + Decode(s[1..])
  }

  lemma DecodeEscapedByte(b: nat, rest: string)
    requires b < 256
    ensures Decode(EscapeByte(b) + rest) == [b] + Decode(rest)
  {
    HexDigitValue(b / 16);
    HexDigitValue(b % 16);
    var s := EscapeByte(b) + rest;
    assert s[0] == '%' && s[1] == HexDigit(b / 16) && s[2] == HexDigit(b % 16);
    assert s[3..] == rest;
  }

  lemma {:induction false} DecodeEscapedBytes(bytes: seq<nat>, t: string)
    requires forall i :: 0 <= i < |bytes| ==> bytes[i] < 256
    ensures Decode(EscapeBytes(bytes) + t) == bytes + Decode(t)
  {
    if bytes == [] {
      assert EscapeBytes(bytes) + t == t;
    } else {
      DecodeEscapedBytes(bytes[1..], t);
      DecodeEscapedStep(bytes[0], bytes[1..], t);
      assert [bytes[0]] + bytes[1..] == bytes;
    }
  }

  /** One escaped byte in front of bytes that already decode back. */
  lemma DecodeEscapedStep(b: nat, rest: seq<nat>, t: string)
    requires b < 256 && forall i :: 0 <= i < |rest| ==> rest[i] < 256
    requires Decode(EscapeBytes(rest) + t) == rest + Decode(t)
    ensures Decode(EscapeByte(b) + EscapeBytes(rest) + t) == [b] + rest + Decode(t)
  {
    var e, d := EscapeByte(b), EscapeBytes(rest);
    Associative(e, d, t);
    DecodeEscapedByte(b, d + t);
    Associative([b], rest, Decode(t));
  }

  /** Decoding the encoded text gives back the UTF-8 bytes of the original. */
  lemma {:induction false} DecodeEncode(s: string)
    ensures Decode(Encode(s)) == Utf8Bytes(s)
  {
    if s != [] {
      var c := s[0];
      DecodeEncode(s[1..]);
      if Unreserved(c) {
        assert Encode(s) == [c] + Encode(s[1..]);
        assert c != '%';
        assert (Encode(s))[1..] == Encode(s[1..]);
      } else {
        DecodeEscapedBytes(Utf8(c), Encode(s[1..]));
      }
    }
  }
}
