/**
 * UTF-8 (RFC 3629) over Unicode scalar values: the character set that
 * java.net.URLEncoder is asked for (StandardCharsets.UTF_8). A Dafny `char`
 * is a Unicode scalar value, so every character has exactly one encoding.
 */
module Utf8 {
  import opened Wrappers

  /** An octet. */
  type Byte = b: int | 0 <= b < 256

  /** A byte that may follow the lead byte of a multi-byte sequence. */
  predicate IsContinuation(b: Byte) {
    0x80 <= b < 0xC0
  }

  /** The six payload bits of a continuation byte. */
  function Bits(b: Byte): int
    requires IsContinuation(b)
  {
    b as int - 0x80
  }

  /** The number of bytes UTF-8 uses for `c` (RFC 3629, section 3). */
  function Width(c: char): nat {
    if c as int < 0x80 then 1
    else if c as int < 0x800 then 2
    else if c as int < 0x10000 then 3
    else 4
  }

  /**
   * The UTF-8 bytes of one scalar value: a single byte below 0x80 for ASCII;
   * otherwise a lead byte carrying the high bits, then one continuation byte
   * per further six bits, most significant first.
   */
  function EncodeScalar(c: char): (bs: seq<Byte>)
    ensures |bs| == Width(c) && 1 <= |bs| <= 4
    ensures |bs| == 1 ==> bs[0] == c as int
    ensures |bs| > 1 ==> 0xC2 <= bs[0] <= 0xF4
    ensures forall i :: 1 <= i < |bs| ==> IsContinuation(bs[i])
    ensures c as int >= 0x80 <==> forall i :: 0 <= i < |bs| ==> bs[i] >= 0x80
  {
    var cp := c as int;
    if cp < 0x80 then
      [cp]
    else if cp < 0x800 then
      [0xC0 + cp / 64, 0x80 + cp % 64]
    else if cp < 0x10000 then
      [0xE0 + cp / 64 / 64, 0x80 + cp / 64 % 64, 0x80 + cp % 64]
    else
      [0xF0 + cp / 64 / 64 / 64, 0x80 + cp / 64 / 64 % 64, 0x80 + cp / 64 % 64, 0x80 + cp % 64]
  }

  /** The UTF-8 bytes of a string: the encodings of its characters, in order. */
  function Encode(s: string): (bs: seq<Byte>)
    ensures |bs| >= |s|
  {
    if s == [] then [] else EncodeScalar(s[0]) + Encode(s[1..])
  }

  /** Whether `cp` is a Unicode scalar value, that is, a possible `char`. */
  predicate IsScalar(cp: int) {
    0 <= cp < 0xD800 || 0xE000 <= cp < 0x110000
  }

  /**
   * Decodes the first character of `bs` and says how many bytes it took, or
   * None when `bs` does not start with a well-formed UTF-8 sequence: a stray
   * continuation byte, a missing continuation, an overlong form, a surrogate
   * or a value above U+10FFFF.
   */
  function DecodeFirst(bs: seq<Byte>): (r: Option<(char, nat)>)
    ensures r.Some? ==> 1 <= r.value.1 <= 4 && r.value.1 <= |bs|
  {
    if |bs| == 0 then None
    else
      var b0 := bs[0] as int;
      if b0 < 0x80 then Some((b0 as char, 1))
      else if 0xC2 <= b0 < 0xE0 then
        if |bs| < 2 || !IsContinuation(bs[1]) then None
        else Some((((b0 - 0xC0) * 64 + Bits(bs[1])) as char, 2))
      else if 0xE0 <= b0 < 0xF0 then
        if |bs| < 3 || !IsContinuation(bs[1]) || !IsContinuation(bs[2]) then None
        else
          var cp := ((b0 - 0xE0) * 64 + Bits(bs[1])) * 64 + Bits(bs[2]);
          if cp < 0x800 || !IsScalar(cp) then None else Some((cp as char, 3))
      else if 0xF0 <= b0 < 0xF5 then
        if |bs| < 4 || !IsContinuation(bs[1]) || !IsContinuation(bs[2]) || !IsContinuation(bs[3]) then None
        else
          var cp := (((b0 - 0xF0) * 64 + Bits(bs[1])) * 64 + Bits(bs[2])) * 64 + Bits(bs[3]);
          if cp < 0x10000 || !IsScalar(cp) then None else Some((cp as char, 4))
      else None
  }

  /** Decodes a whole byte sequence, or None when any part of it is malformed. */
  function Decode(bs: seq<Byte>): Option<string>
    decreases |bs|
  {
    if bs == [] then Some([])
    else match DecodeFirst(bs)
      case None => None
      case Some((c, n)) =>
        match Decode(bs[n..])
        case None => None
        case Some(rest) => Some([c] + rest)
  }

  /** Splitting off the low six bits of a non-negative number is undone by putting them back. */
  lemma DivMod64(q: int, r: int)
    requires 0 <= r < 64
    ensures (q * 64 + r) / 64 == q && (q * 64 + r) % 64 == r
  {
  }

  /** Decoding reads back the character that EncodeScalar wrote, whatever follows it. */
  lemma DecodeFirstOfEncoded(c: char, rest: seq<Byte>)
    ensures DecodeFirst(EncodeScalar(c) + rest) == Some((c, Width(c)))
  {
    var bs := EncodeScalar(c) + rest;
    var cp := c as int;
    if cp < 0x80 {
    } else if cp < 0x800 {
      assert bs[0] == 0xC0 + cp / 64 && bs[1] == 0x80 + cp % 64;
      assert (bs[0] as int - 0xC0) * 64 + Bits(bs[1]) == cp;
    } else if cp < 0x10000 {
      assert bs[0] == 0xE0 + cp / 64 / 64 && bs[1] == 0x80 + cp / 64 % 64 && bs[2] == 0x80 + cp % 64;
      assert ((bs[0] as int - 0xE0) * 64 + Bits(bs[1])) * 64 + Bits(bs[2]) == cp;
    } else {
      assert bs[0] == 0xF0 + cp / 64 / 64 / 64 && bs[1] == 0x80 + cp / 64 / 64 % 64;
      assert bs[2] == 0x80 + cp / 64 % 64 && bs[3] == 0x80 + cp % 64;
      assert (((bs[0] as int - 0xF0) * 64 + Bits(bs[1])) * 64 + Bits(bs[2])) * 64 + Bits(bs[3]) == cp;
    }
  }

  lemma DecodeTwoSound(bs: seq<Byte>)
    requires DecodeFirst(bs).Some? && DecodeFirst(bs).value.1 == 2
    ensures bs[..2] == EncodeScalar(DecodeFirst(bs).value.0)
  {
    var w := bs[0] as int - 0xC0;
    assert DecodeFirst(bs).value.0 as int == w * 64 + Bits(bs[1]);
    DivMod64(w, Bits(bs[1]));
  }

  lemma DecodeThreeSound(bs: seq<Byte>)
    requires DecodeFirst(bs).Some? && DecodeFirst(bs).value.1 == 3
    ensures bs[..3] == EncodeScalar(DecodeFirst(bs).value.0)
  {
    var w := bs[0] as int - 0xE0;
    assert DecodeFirst(bs).value.0 as int == (w * 64 + Bits(bs[1])) * 64 + Bits(bs[2]);
    DivMod64(w * 64 + Bits(bs[1]), Bits(bs[2]));
    DivMod64(w, Bits(bs[1]));
  }

  lemma DecodeFourSound(bs: seq<Byte>)
    requires DecodeFirst(bs).Some? && DecodeFirst(bs).value.1 == 4
    ensures bs[..4] == EncodeScalar(DecodeFirst(bs).value.0)
  {
    var w := bs[0] as int - 0xF0;
    assert DecodeFirst(bs).value.0 as int == ((w * 64 + Bits(bs[1])) * 64 + Bits(bs[2])) * 64 + Bits(bs[3]);
    DivMod64((w * 64 + Bits(bs[1])) * 64 + Bits(bs[2]), Bits(bs[3]));
    DivMod64(w * 64 + Bits(bs[1]), Bits(bs[2]));
    DivMod64(w, Bits(bs[1]));
  }

  /** Whatever DecodeFirst accepts is the UTF-8 encoding of the character it returns. */
  lemma DecodeFirstSound(bs: seq<Byte>)
    requires DecodeFirst(bs).Some?
    ensures var (c, n) := DecodeFirst(bs).value; bs[..n] == EncodeScalar(c)
  {
    var n := DecodeFirst(bs).value.1;
    if n == 2 {
      DecodeTwoSound(bs);
    } else if n == 3 {
      DecodeThreeSound(bs);
    } else if n == 4 {
      DecodeFourSound(bs);
    }
  }

  lemma {:induction false} DecodeEncode(s: string)
    ensures Decode(Encode(s)) == Some(s)
  {
    if s != [] {
      var e := EncodeScalar(s[0]);
      var bs := Encode(s);
      assert bs == e + Encode(s[1..]);
      DecodeFirstOfEncoded(s[0], Encode(s[1..]));
      assert bs[|e|..] == Encode(s[1..]);
      DecodeEncode(s[1..]);
      assert [s[0]] + s[1..] == s;
    }
  }

  /** A successful decode of non-empty bytes reads one character, then decodes the rest. */
  lemma DecodeCons(bs: seq<Byte>, s: string)
    requires bs != [] && Decode(bs) == Some(s)
    ensures DecodeFirst(bs).Some? && |s| >= 1 && s[0] == DecodeFirst(bs).value.0
    ensures Decode(bs[DecodeFirst(bs).value.1..]) == Some(s[1..])
  {
    var n := DecodeFirst(bs).value.1;
    var rest := Decode(bs[n..]).value;
    assert s == [DecodeFirst(bs).value.0] + rest;
    assert s[1..] == rest;
  }

  /** Decoding accepts only encodings: when it succeeds, encoding its result gives the input back. */
  lemma {:induction false} EncodeDecode(bs: seq<Byte>, s: string)
    requires Decode(bs) == Some(s)
    ensures Encode(s) == bs
    decreases |bs|
  {
    if bs != [] {
      DecodeCons(bs, s);
      var n := DecodeFirst(bs).value.1;
      var head, tail := bs[..n], bs[n..];
      assert bs == head + tail;
      DecodeFirstSound(bs);
      assert head == EncodeScalar(s[0]);
      EncodeDecode(tail, s[1..]);
      assert Encode(s) == EncodeScalar(s[0]) + Encode(s[1..]);
    }
  }

  /** UTF-8 decoding succeeds on exactly the encodings, and returns the encoded string. */
  lemma DecodeIff(bs: seq<Byte>, s: string)
    ensures Decode(bs) == Some(s) <==> Encode(s) == bs
  {
    if Decode(bs) == Some(s) { EncodeDecode(bs, s); }
    if Encode(s) == bs { DecodeEncode(s); }
  }

  /** Encoding distributes over concatenation. */
  lemma {:induction false} EncodeAppend(a: string, b: string)
    ensures Encode(a + b) == Encode(a) + Encode(b)
  {
    if a != [] {
      assert (a + b)[0] == a[0] && (a + b)[1..] == a[1..] + b;
      assert Encode(a + b) == EncodeScalar(a[0]) + Encode(a[1..] + b);
      EncodeAppend(a[1..], b);
      assert Encode(a) == EncodeScalar(a[0]) + Encode(a[1..]);
      assert Encode(a) + Encode(b) == EncodeScalar(a[0]) + (Encode(a[1..]) + Encode(b));
    } else {
      assert a + b == b;
    }
  }
}
