/** The text encodings a .NET string goes through on the wire. A string is a sequence of
    Unicode scalar values (Dafny's `char`); `new UTF8Encoding(false, true)` turns it into UTF-8
    (RFC 3629) and, because its second argument asks it to throw on invalid bytes, refuses
    every byte sequence that is not the encoding of some string. `string.Length` counts UTF-16
    code units, so a character above U+FFFF counts twice. */
module Utf8 {
  import opened Bits
  import opened Wrappers

  /** The UTF-8 bytes of one character: 1 to 4 bytes, shortest form. */
  function EncodeChar(c: char): (r: seq<byte>)
    ensures 1 <= |r| <= 4
    ensures r[0] < 0x80 <==> |r| == 1
  {
    var n := c as int;
    if n < 0x80 then [n]
    else if n < 0x800 then [0xC0 + n / 0x40, 0x80 + n % 0x40]
    else if n < 0x1_0000 then [0xE0 + n / 0x1000, 0x80 + n / 0x40 % 0x40, 0x80 + n % 0x40]
    else [0xF0 + n / 0x4_0000, 0x80 + n / 0x1000 % 0x40, 0x80 + n / 0x40 % 0x40, 0x80 + n % 0x40]
  }

  /** UTF8Encoding.GetBytes: the characters' encodings one after the other. */
  function Encode(s: string): (r: seq<byte>)
    ensures |r| >= |s|
  {
    if s == [] then [] else EncodeChar(s[0]) + Encode(s[1..])
  }

  /** A continuation byte 10xxxxxx. */
  predicate Continuation(b: byte)
  {
    0x80 <= b < 0xC0
  }

  /** The first character of bs and the number of bytes it takes, or None when bs does not
      start with a well-formed UTF-8 sequence (a stray continuation byte, a truncated
      sequence, an overlong form, a surrogate, or a value above U+10FFFF). */
  function DecodeChar(bs: seq<byte>): (r: Option<(char, nat)>)
    ensures r.Some? ==> 1 <= r.value.1 <= |bs| && r.value.1 <= 4
  {
    if |bs| == 0 then None
    else
      var b0 := bs[0] as int;
      if b0 < 0x80 then Some((b0 as char, 1))
      else if b0 < 0xC0 then None
      else if b0 < 0xE0 then
        if |bs| < 2 || !Continuation(bs[1]) then None
        else
          var n := Value2(b0, bs[1]);
          if n < 0x80 then None else Some((n as char, 2))
      else if b0 < 0xF0 then
        if |bs| < 3 || !Continuation(bs[1]) || !Continuation(bs[2]) then None
        else
          var n := Value3(b0, bs[1], bs[2]);
          if n < 0x800 || (0xD800 <= n < 0xE000) then None else Some((n as char, 3))
      else if b0 < 0xF8 then
        if |bs| < 4 || !Continuation(bs[1]) || !Continuation(bs[2]) || !Continuation(bs[3]) then None
        else
          var n := Value4(b0, bs[1], bs[2], bs[3]);
          if n < 0x1_0000 || n >= 0x11_0000 then None else Some((n as char, 4))
      else None
  }

  /** The code point spelled by a two-, three- or four-byte sequence. */
  function Value2(b0: int, b1: byte): (n: int)
    requires 0xC0 <= b0 < 0xE0 && Continuation(b1)
    ensures 0 <= n < 0x800
  {
    (b0 - 0xC0) * 0x40 + (b1 as int - 0x80)
  }

  function Value3(b0: int, b1: byte, b2: byte): (n: int)
    requires 0xE0 <= b0 < 0xF0 && Continuation(b1) && Continuation(b2)
    ensures 0 <= n < 0x1_0000
  {
    (b0 - 0xE0) * 0x1000 + (b1 as int - 0x80) * 0x40 + (b2 as int - 0x80)
  }

  function Value4(b0: int, b1: byte, b2: byte, b3: byte): (n: int)
    requires 0xF0 <= b0 < 0xF8 && Continuation(b1) && Continuation(b2) && Continuation(b3)
    ensures 0 <= n < 0x20_0000
  {
    (b0 - 0xF0) * 0x4_0000 + (b1 as int - 0x80) * 0x1000 + (b2 as int - 0x80) * 0x40 + (b3 as int - 0x80)
  }

  /** UTF8Encoding.GetString with throwOnInvalidBytes set: MalformedText stands for the
      DecoderFallbackException it throws. */
  function Decode(bs: seq<byte>): Result<string>
    decreases |bs|
  {
    if bs == [] then Success([])
    else match DecodeChar(bs)
      case None => Failure(MalformedText)
      case Some((c, k)) =>
        var rest :- Decode(bs[k..]);
        Success([c] + rest)
  }

  /** One character's encoding is read back as that character, whatever follows it. */
  lemma DecodeCharEncodeChar(c: char, rest: seq<byte>)
    ensures DecodeChar(EncodeChar(c) + rest) == Some((c, |EncodeChar(c)|))
  {
    var n := c as int;
    var e := EncodeChar(c);
    var bs := e + rest;
    assert bs[..|e|] == e;
    if n < 0x80 {
    } else if n < 0x800 {
      assert Value2(e[0], e[1]) == n;
    } else if n < 0x1_0000 {
      Split3(n);
      assert Value3(e[0], e[1], e[2]) == n;
    } else {
      Split4(n);
      assert Value4(e[0], e[1], e[2], e[3]) == n;
    }
  }

  /** Peeling six bits at a time off a code point. */
  lemma Split3(n: int)
    requires 0 <= n < 0x1_0000
    ensures n == (n / 0x1000) * 0x1000 + (n / 0x40 % 0x40) * 0x40 + n % 0x40
  {
    var q1, r0 := n / 0x40, n % 0x40;
    var q2, r1 := q1 / 0x40, q1 % 0x40;
    DivModUnique(n, 0x1000, q2, r1 * 0x40 + r0);
  }

  lemma Split4(n: int)
    requires 0 <= n
    ensures n == (n / 0x4_0000) * 0x4_0000 + (n / 0x1000 % 0x40) * 0x1000 + (n / 0x40 % 0x40) * 0x40 + n % 0x40
  {
    var q1, r0 := n / 0x40, n % 0x40;
    var q2, r1 := q1 / 0x40, q1 % 0x40;
    var q3, r2 := q2 / 0x40, q2 % 0x40;
    assert n == q2 * 0x1000 + (r1 * 0x40 + r0);
    DivModUnique(n, 0x1000, q2, r1 * 0x40 + r0);
    assert n == q3 * 0x4_0000 + (r2 * 0x1000 + r1 * 0x40 + r0);
    DivModUnique(n, 0x4_0000, q3, r2 * 0x1000 + r1 * 0x40 + r0);
  }

  /** Decoding what was encoded gives the string back. */
  lemma {:induction false} DecodeEncode(s: string)
    ensures Decode(Encode(s)) == Success(s)
  {
    if s != [] {
      var e := EncodeChar(s[0]);
      DecodeCharEncodeChar(s[0], Encode(s[1..]));
      assert (e + Encode(s[1..]))[|e|..] == Encode(s[1..]);
      DecodeEncode(s[1..]);
      assert [s[0]] + s[1..] == s;
    }
  }

  /** A decoded character was spelled in its one encoding. */
  lemma EncodeCharDecodeChar(bs: seq<byte>)
    requires DecodeChar(bs).Some?
    ensures EncodeChar(DecodeChar(bs).value.0) == bs[..DecodeChar(bs).value.1]
  {
    var b0 := bs[0] as int;
    if b0 < 0x80 {
      assert bs[..1] == [bs[0]];
    } else if b0 < 0xE0 {
      assert bs[..2] == [bs[0], bs[1]];
    } else if b0 < 0xF0 {
      Spelled3(b0, bs[1], bs[2]);
      assert bs[..3] == [bs[0], bs[1], bs[2]];
    } else {
      Spelled4(b0, bs[1], bs[2], bs[3]);
      assert bs[..4] == [bs[0], bs[1], bs[2], bs[3]];
    }
  }

  lemma Spelled3(b0: int, b1: byte, b2: byte)
    requires 0xE0 <= b0 < 0xF0 && Continuation(b1) && Continuation(b2)
    ensures var n := Value3(b0, b1, b2);
      n / 0x1000 == b0 - 0xE0 && n / 0x40 % 0x40 == b1 - 0x80 && n % 0x40 == b2 - 0x80
  {
    var n := Value3(b0, b1, b2);
    DivModUnique(n, 0x40, (b0 - 0xE0) * 0x40 + (b1 - 0x80), b2 - 0x80);
    DivModUnique(n / 0x40, 0x40, b0 - 0xE0, b1 - 0x80);
    DivModUnique(n, 0x1000, b0 - 0xE0, (b1 - 0x80) * 0x40 + (b2 - 0x80));
  }

  lemma Spelled4(b0: int, b1: byte, b2: byte, b3: byte)
    requires 0xF0 <= b0 < 0xF8 && Continuation(b1) && Continuation(b2) && Continuation(b3)
    ensures var n := Value4(b0, b1, b2, b3);
      n / 0x4_0000 == b0 - 0xF0 && n / 0x1000 % 0x40 == b1 - 0x80 &&
      n / 0x40 % 0x40 == b2 - 0x80 && n % 0x40 == b3 - 0x80
  {
    var n := Value4(b0, b1, b2, b3);
    var h1, h2, h3 := b1 - 0x80, b2 - 0x80, b3 - 0x80;
    DivModUnique(n, 0x40, (b0 - 0xF0) * 0x1000 + h1 * 0x40 + h2, h3);
    DivModUnique(n / 0x40, 0x40, (b0 - 0xF0) * 0x40 + h1, h2);
    DivModUnique(n, 0x1000, (b0 - 0xF0) * 0x40 + h1, h2 * 0x40 + h3);
    DivModUnique(n / 0x1000, 0x40, b0 - 0xF0, h1);
    DivModUnique(n, 0x4_0000, b0 - 0xF0, h1 * 0x1000 + h2 * 0x40 + h3);
  }

  /** Only encodings decode: a byte sequence the decoder accepts is the encoding of what it
      decodes to. */
  lemma {:induction false} EncodeDecode(bs: seq<byte>)
    requires Decode(bs).Success?
    ensures Encode(Decode(bs).value) == bs
    decreases |bs|
  {
    if bs != [] {
      var c, k := DecodeStep(bs);
      var rest := Decode(bs[k..]).value;
      EncodeCharDecodeChar(bs);
      EncodeDecode(bs[k..]);
      EncodeCons(c, rest);
      Halves(bs, k);
    }
  }

  lemma Halves(bs: seq<byte>, k: nat)
    requires k <= |bs|
    ensures bs[..k] + bs[k..] == bs
  {
  }

  /** The encoding of a string is that of its first character, then that of the rest. */
  lemma EncodeCons(c: char, rest: string)
    ensures Encode([c] + rest) == EncodeChar(c) + Encode(rest)
  {
    assert ([c] + rest)[1..] == rest;
  }

  /** A successful decode of a non-empty sequence: its first character, then the rest. */
  lemma DecodeStep(bs: seq<byte>) returns (c: char, k: nat)
    requires bs != [] && Decode(bs).Success?
    ensures DecodeChar(bs) == Some((c, k)) && 1 <= k <= |bs|
    ensures Decode(bs[k..]).Success? && Decode(bs).value == [c] + Decode(bs[k..]).value
  {
    c, k := DecodeChar(bs).value.0, DecodeChar(bs).value.1;
  }

  /** The encoder is injective, so the string reader can give back exactly what was written. */
  lemma EncodeInjective(s: string, t: string)
    requires Encode(s) == Encode(t)
    ensures s == t
  {
    DecodeEncode(s);
    DecodeEncode(t);
  }

  /** The UTF-16 code units of one character: a surrogate pair above U+FFFF. */
  function Utf16Char(c: char): (r: seq<uint16>)
    ensures |r| == (if c as int < 0x1_0000 then 1 else 2)
  {
    var n := c as int;
    if n < 0x1_0000 then [n]
    else [0xD800 + (n - 0x1_0000) / 0x400, 0xDC00 + (n - 0x1_0000) % 0x400]
  }

  /** The UTF-16 code units of a string, the form .NET keeps it in. */
  function Utf16(s: string): (r: seq<uint16>)
    ensures |r| >= |s|
  {
    if s == [] then [] else Utf16Char(s[0]) + Utf16(s[1..])
  }

  /** string.Length. */
  function Length(s: string): nat
  {
    |Utf16(s)|
  }

  /** A character takes at least as many UTF-8 bytes as UTF-16 code units. */
  lemma {:induction false} LengthAtMostBytes(s: string)
    ensures Length(s) <= |Encode(s)|
  {
    if s != [] {
      LengthAtMostBytes(s[1..]);
    }
  }
}
