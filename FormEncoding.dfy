/**
 * The application/x-www-form-urlencoded serialisation that
 * java.net.URLEncoder.encode(s, "UTF-8") performs (HTML 4.01, section
 * 17.13.4.1; WHATWG URL Standard, section 5.2), and a decoder that inverts it.
 */
module FormEncoding {
  import opened Wrappers
  import Utf8

  /** Characters URLEncoder leaves as they are. */
  predicate IsUnreserved(c: char) {
    ('A' <= c <= 'Z') || ('a' <= c <= 'z') || ('0' <= c <= '9') ||
    c == '.' || c == '-' || c == '*' || c == '_'
  }

  /** A hexadecimal digit as URLEncoder writes it: upper case. */
  predicate IsUpperHexDigit(c: char) {
    ('0' <= c <= '9') || ('A' <= c <= 'F')
  }

  /** The characters an encoded value may contain. */
  predicate IsFormChar(c: char) {
    IsUnreserved(c) || c == '+' || c == '%'
  }

  function HexDigit(n: int): (c: char)
    requires 0 <= n < 16
    ensures IsUpperHexDigit(c) && HexValue(c) == n
  {
    if n < 10 then ('0' as int + n) as char else ('A' as int + n - 10) as char
  }

  function HexValue(c: char): (n: int)
    requires IsUpperHexDigit(c)
    ensures 0 <= n < 16
  {
    if c <= '9' then c as int - '0' as int else c as int - 'A' as int + 10
  }

  lemma HexDigitOfValue(c: char)
    requires IsUpperHexDigit(c)
    ensures HexDigit(HexValue(c)) == c
  {
  }

  /** `%HH`: a byte written as two upper-case hexadecimal digits. */
  function PercentByte(b: Utf8.Byte): (r: string)
    ensures |r| == 3 && r[0] == '%' && IsUpperHexDigit(r[1]) && IsUpperHexDigit(r[2])
    ensures HexValue(r[1]) * 16 + HexValue(r[2]) == b
  {
    ['%', HexDigit(b / 16), HexDigit(b % 16)]
  }

  /** `%HH` for each byte, in order. */
  function Percent(bs: seq<Utf8.Byte>): (r: string)
    ensures |r| == 3 * |bs|
    ensures forall i :: 0 <= i < |r| ==> IsFormChar(r[i])
  {
    if bs == [] then [] else PercentByte(bs[0]) + Percent(bs[1..])
  }

  /**
   * URLEncoder on one character: unreserved characters stay, a space becomes
   * `+`, and every other character becomes `%HH` for each of its UTF-8 bytes.
   */
  function EncodeChar(c: char): (r: string)
    ensures |r| == (if IsUnreserved(c) || c == ' ' then 1 else 3 * Utf8.Width(c))
    ensures forall i :: 0 <= i < |r| ==> IsFormChar(r[i])
  {
    if IsUnreserved(c) then [c]
    else if c == ' ' then "+"
    else Percent(Utf8.EncodeScalar(c))
  }

  /**
   * URLEncoder.encode(s, "UTF-8"): the encodings of the characters of `s`,
   * in order. The result never holds `{`, `}`, `&` or `=`.
   */
  function FormEncode(s: string): (r: string)
    ensures |r| >= |s|
    ensures forall i :: 0 <= i < |r| ==> IsFormChar(r[i])
  {
    if s == [] then [] else EncodeChar(s[0]) + FormEncode(s[1..])
  }

  /** Encoding a concatenation concatenates the encodings. */
  /**
   * An encoded value holds none of the characters that delimit a query
   * (`&`, `=`) or a placeholder (`{`, `}`).
   */
  lemma FormEncodeNoDelimiters(s: string)
    ensures var r := FormEncode(s); '&' !in r && '=' !in r && '{' !in r && '}' !in r
  {
    var r := FormEncode(s);
    forall i | 0 <= i < |r| ensures r[i] != '&' && r[i] != '=' && r[i] != '{' && r[i] != '}' {
      assert IsFormChar(r[i]);
    }
    assert forall c :: c in r ==> exists i :: 0 <= i < |r| && r[i] == c;
  }

  lemma {:induction false} FormEncodeAppend(a: string, b: string)
    ensures FormEncode(a + b) == FormEncode(a) + FormEncode(b)
  {
    if a == [] {
      assert a + b == b;
    } else {
      assert (a + b)[0] == a[0] && (a + b)[1..] == a[1..] + b;
      FormEncodeAppend(a[1..], b);
    }
  }

  /**
   * The per-character shape of the encoding: an unreserved character maps to
   * itself, a space to `+`, and any other character to `%HH` for each of its
   * one to four UTF-8 bytes.
   */
  lemma FormEncodeChar(c: char)
    ensures IsUnreserved(c) ==> FormEncode([c]) == [c]
    ensures c == ' ' ==> FormEncode([c]) == "+"
    ensures !IsUnreserved(c) && c != ' ' ==>
      FormEncode([c]) == Percent(Utf8.EncodeScalar(c)) && 3 <= |FormEncode([c])| <= 12
  {
    assert FormEncode([c]) == EncodeChar(c) + FormEncode([]);
  }

  /** A value is left unchanged exactly when all its characters are unreserved. */
  lemma {:induction false} FormEncodeIdentity(s: string)
    ensures FormEncode(s) == s <==> forall i :: 0 <= i < |s| ==> IsUnreserved(s[i])
  {
    if s != [] {
      FormEncodeIdentity(s[1..]);
      var e := EncodeChar(s[0]);
      assert FormEncode(s) == e + FormEncode(s[1..]);
      if IsUnreserved(s[0]) {
        assert e == [s[0]];
        if FormEncode(s[1..]) == s[1..] {
          assert FormEncode(s) == [s[0]] + s[1..] == s;
        }
        if FormEncode(s) == s {
          assert FormEncode(s[1..]) == FormEncode(s)[1..] == s[1..];
        }
        assert (forall i :: 0 <= i < |s| ==> IsUnreserved(s[i])) <==>
               (forall i :: 0 <= i < |s[1..]| ==> IsUnreserved(s[1..][i])) by {
          forall i | 0 < i < |s| ensures s[i] == s[1..][i - 1] { }
        }
      } else if s[0] == ' ' {
        assert FormEncode(s)[0] == '+' != s[0];
      } else {
        assert |FormEncode(s)| >= 3 + |s| - 1;
      }
    }
  }

  /** Bytes the form serialiser writes as the corresponding ASCII character. */
  predicate IsLiteralByte(b: Utf8.Byte) {
    b < 0x80 && IsUnreserved(b as char)
  }

  /**
   * The byte serialiser of the WHATWG URL Standard, section 5.2: a literal
   * byte as its character, 0x20 as `+`, anything else as `%HH`.
   */
  function EscapeByte(b: Utf8.Byte): string {
    if IsLiteralByte(b) then [b as char]
    else if b == 0x20 then "+"
    else PercentByte(b)
  }

  function EscapeBytes(bs: seq<Utf8.Byte>): string {
    if bs == [] then [] else EscapeByte(bs[0]) + EscapeBytes(bs[1..])
  }

  lemma {:induction false} EscapeBytesAppend(a: seq<Utf8.Byte>, b: seq<Utf8.Byte>)
    ensures EscapeBytes(a + b) == EscapeBytes(a) + EscapeBytes(b)
  {
    if a == [] {
      assert a + b == b;
    } else {
      assert (a + b)[0] == a[0] && (a + b)[1..] == a[1..] + b;
      EscapeBytesAppend(a[1..], b);
    }
  }

  /** Bytes at or above 0x80 are always percent-encoded. */
  lemma {:induction false} EscapeHighBytes(bs: seq<Utf8.Byte>)
    requires forall i :: 0 <= i < |bs| ==> bs[i] >= 0x80
    ensures EscapeBytes(bs) == Percent(bs)
  {
    if bs != [] {
      EscapeHighBytes(bs[1..]);
    }
  }

  /**
   * URLEncoder's character-by-character rule is the same as serialising the
   * UTF-8 bytes of the whole value.
   */
  lemma {:induction false} FormEncodeIsEscapedUtf8(s: string)
    ensures FormEncode(s) == EscapeBytes(Utf8.Encode(s))
  {
    if s != [] {
      var c := s[0];
      var e := Utf8.EncodeScalar(c);
      if c as int < 0x80 {
        assert e == [c as int];
        assert (c as int) as char == c;
        assert EscapeBytes(e) == EscapeByte(c as int) + EscapeBytes([]);
      } else {
        EscapeHighBytes(e);
      }
      assert EncodeChar(c) == EscapeBytes(e);
      EscapeBytesAppend(e, Utf8.Encode(s[1..]));
      FormEncodeIsEscapedUtf8(s[1..]);
    }
  }

  function Prepend(b: Utf8.Byte, r: Option<seq<Utf8.Byte>>): Option<seq<Utf8.Byte>> {
    match r
    case None => None
    case Some(bs) => Some([b] + bs)
  }

  /**
   * Reads the bytes back from their serialisation, accepting exactly what
   * EscapeByte writes: `+`, literal characters, and `%HH` with upper-case
   * digits for bytes that are not written literally.
   */
  function Unescape(t: string): Option<seq<Utf8.Byte>>
    decreases |t|
  {
    if t == [] then Some([])
    else if t[0] == '+' then Prepend(0x20, Unescape(t[1..]))
    else if t[0] == '%' then
      if |t| >= 3 && IsUpperHexDigit(t[1]) && IsUpperHexDigit(t[2]) then
        var b := HexValue(t[1]) * 16 + HexValue(t[2]);
        if IsLiteralByte(b) || b == 0x20 then None else Prepend(b, Unescape(t[3..]))
      else None
    else if IsUnreserved(t[0]) then Prepend(t[0] as int, Unescape(t[1..]))
    else None
  }

  /** The decoder reads one serialised byte off the front. */
  lemma UnescapeEscapedByte(b: Utf8.Byte, rest: string)
    ensures Unescape(EscapeByte(b) + rest) == Prepend(b, Unescape(rest))
  {
    var e := EscapeByte(b);
    var t := e + rest;
    assert t[..|e|] == e && t[|e|..] == rest;
    if IsLiteralByte(b) {
      assert t[0] == b as char;
    } else if b == 0x20 {
      assert t[0] == '+';
    } else {
      assert t[0] == '%' && t[1] == e[1] && t[2] == e[2];
    }
  }

  lemma {:induction false} UnescapeEscape(bs: seq<Utf8.Byte>)
    ensures Unescape(EscapeBytes(bs)) == Some(bs)
  {
    if bs != [] {
      UnescapeEscape(bs[1..]);
      UnescapeEscapedByte(bs[0], EscapeBytes(bs[1..]));
      assert [bs[0]] + bs[1..] == bs;
    }
  }

  /** A `%HH` the decoder accepts is what EscapeByte writes for its byte. */
  lemma EscapeDecodedPercent(t: string)
    requires |t| >= 3 && t[0] == '%' && IsUpperHexDigit(t[1]) && IsUpperHexDigit(t[2])
    requires !IsLiteralByte(HexValue(t[1]) * 16 + HexValue(t[2]))
    requires HexValue(t[1]) * 16 + HexValue(t[2]) != 0x20
    ensures EscapeByte(HexValue(t[1]) * 16 + HexValue(t[2])) == t[..3]
  {
    var hi, lo := HexValue(t[1]), HexValue(t[2]);
    assert (hi * 16 + lo) / 16 == hi && (hi * 16 + lo) % 16 == lo;
    HexDigitOfValue(t[1]);
    HexDigitOfValue(t[2]);
  }

  lemma {:induction false} EscapeUnescape(t: string, bs: seq<Utf8.Byte>)
    requires Unescape(t) == Some(bs)
    ensures EscapeBytes(bs) == t
    decreases |t|
  {
    if t != [] {
      var k := if t[0] == '%' then 3 else 1;
      assert |t| >= k;
      var rest := Unescape(t[k..]).value;
      assert bs == [bs[0]] + rest;
      EscapeUnescape(t[k..], rest);
      assert EscapeBytes(bs) == EscapeByte(bs[0]) + EscapeBytes(rest);
      if t[0] == '%' {
        EscapeDecodedPercent(t);
      }
      assert EscapeByte(bs[0]) == t[..k];
      assert t == t[..k] + t[k..];
    }
  }

  /** Form decoding: unescape the bytes, then read them as UTF-8. */
  function FormDecode(t: string): Option<string> {
    match Unescape(t)
    case None => None
    case Some(bs) => Utf8.Decode(bs)
  }

  /**
   * The decoder accepts exactly the encoder's outputs and recovers the value:
   * decoding `t` yields `s` if and only if `t` is the encoding of `s`.
   */
  lemma FormDecodeIff(t: string, s: string)
    ensures FormDecode(t) == Some(s) <==> FormEncode(s) == t
  {
    FormEncodeIsEscapedUtf8(s);
    if FormDecode(t) == Some(s) {
      var bs := Unescape(t).value;
      EscapeUnescape(t, bs);
      Utf8.DecodeIff(bs, s);
    }
    if FormEncode(s) == t {
      UnescapeEscape(Utf8.Encode(s));
      Utf8.DecodeIff(Utf8.Encode(s), s);
    }
  }

  /** Different values have different encodings. */
  lemma FormEncodeInjective(a: string, b: string)
    requires FormEncode(a) == FormEncode(b)
    ensures a == b
  {
    FormDecodeIff(FormEncode(a), a);
    FormDecodeIff(FormEncode(a), b);
  }
}
