/**
 UTF-8: how text becomes bytes, and which bytes are text.

 A character is one to four bytes, by its number. Decoding accepts exactly what
 the standard library does: continuation bytes where they belong, no character
 written longer than need be, no surrogate, and nothing past the last code
 point. That encoding followed by decoding gives a text back is proved here,
 and so is the converse, that no other bytes decode to that text, so every other
 byte string is refused.
 */
module Utf8 {
  import opened Common

  function EncodeChar(c: char): (bytes: seq<byte>)
    ensures 1 <= |bytes| <= 4
  {
    var n := c as int;
    if n < 0x80 then [n]
    else if n < 0x800 then [0xC0 + n / 0x40, 0x80 + n % 0x40]
    else if n < 0x1_0000 then [0xE0 + n / 0x1000, 0x80 + n / 0x40 % 0x40, 0x80 + n % 0x40]
    else [0xF0 + n / 0x4_0000, 0x80 + n / 0x1000 % 0x40, 0x80 + n / 0x40 % 0x40, 0x80 + n % 0x40]
  }

  function Encode(s: string): seq<byte> {
    if s == [] then [] else EncodeChar(s[0]) + Encode(s[1..])
  }

  predicate Continues(b: byte) {
    0x80 <= b < 0xC0
  }

  /** The bits a continuation byte carries. */
  function Low(b: byte): int {
    b as int - 0x80
  }

  /** The scalar value n as a character, when it is one and not written longer than need be. */
  function Scalar(n: int, least: nat): Option<char> {
    if n < least || 0xD800 <= n < 0xE000 || n > 0x10_FFFF then None else Some(n as char)
  }

  /** The first character of some bytes and its length, if they start with one. */
  function DecodeChar(b: seq<byte>): (r: Option<(char, nat)>)
    ensures r.Some? ==> 1 <= r.value.1 <= |b|
  {
    if b == [] then None
    else if b[0] < 0x80 then Some((b[0] as char, 1))
    else if 0xC0 <= b[0] < 0xE0 && |b| >= 2 && Continues(b[1]) then
      Sized(Scalar((b[0] as int - 0xC0) * 0x40 + Low(b[1]), 0x80), 2)
    else if 0xE0 <= b[0] < 0xF0 && |b| >= 3 && Continues(b[1]) && Continues(b[2]) then
      Sized(Scalar((b[0] as int - 0xE0) * 0x1000 + Low(b[1]) * 0x40 + Low(b[2]), 0x800), 3)
    else if 0xF0 <= b[0] < 0xF8 && |b| >= 4 && Continues(b[1]) && Continues(b[2]) && Continues(b[3]) then
      Sized(Scalar((b[0] as int - 0xF0) * 0x4_0000 + Low(b[1]) * 0x1000 + Low(b[2]) * 0x40 + Low(b[3]),
                   0x1_0000), 4)
    else None
  }

  function Sized(c: Option<char>, n: nat): Option<(char, nat)> {
    if c.None? then None else Some((c.value, n))
  }

  /** `String::from_utf8`. */
  function Decode(b: seq<byte>): Option<string> {
    if b == [] then Some([])
    else match DecodeChar(b)
      case None => None
      case Some((c, n)) =>
        match Decode(b[n..])
        case None => None
        case Some(rest) => Some([c] + rest)
  }

  lemma ThreeDigits(n: nat)
    requires n < 0x1_0000
    ensures n / 0x1000 * 0x1000 + n / 0x40 % 0x40 * 0x40 + n % 0x40 == n
  {
  }

  lemma FourDigits(n: nat)
    requires n < 0x20_0000
    ensures n / 0x4_0000 * 0x4_0000 + n / 0x1000 % 0x40 * 0x1000 + n / 0x40 % 0x40 * 0x40 + n % 0x40 == n
  {
    var a, b := n / 0x40, n / 0x1000;
    assert b == a / 0x40 && n / 0x4_0000 == b / 0x40;
    assert n == a * 0x40 + n % 0x40 && a == b * 0x40 + a % 0x40 && b == b / 0x40 * 0x40 + b % 0x40;
  }

  lemma DecodeEncodedChar(c: char, rest: seq<byte>)
    ensures DecodeChar(EncodeChar(c) + rest) == Some((c, |EncodeChar(c)|))
  {
    var n := c as int;
    var b := EncodeChar(c) + rest;
    if n < 0x80 {
    } else if n < 0x800 {
      assert b[0] == 0xC0 + n / 0x40 && Low(b[1]) == n % 0x40;
    } else if n < 0x1_0000 {
      ThreeDigits(n);
      assert b[0] == 0xE0 + n / 0x1000 && Low(b[1]) == n / 0x40 % 0x40 && Low(b[2]) == n % 0x40;
    } else {
      FourDigits(n);
      assert b[0] == 0xF0 + n / 0x4_0000 && Low(b[1]) == n / 0x1000 % 0x40;
      assert Low(b[2]) == n / 0x40 % 0x40 && Low(b[3]) == n % 0x40;
    }
  }

  /** Every text is read back from its bytes. */
  lemma {:induction false} DecodeEncoded(s: string)
    ensures Decode(Encode(s)) == Some(s)
  {
    if s != [] {
      var first, rest := EncodeChar(s[0]), Encode(s[1..]);
      DecodeEncodedChar(s[0], rest);
      DecodeEncoded(s[1..]);
      assert (first + rest)[|first|..] == rest;
      assert [s[0]] + s[1..] == s;
      hide EncodeChar, DecodeChar;
    }
  }

  // ---------------------------------------------------------------- the converse

  /** The lead byte says how many bytes there are; the payloads, six bits in each byte after it, are the number. */
  lemma EncodeCharMeaning(c: char)
    ensures var b, n := EncodeChar(c), c as int;
            && (n < 0x80 ==> b == [n])
            && (0x80 <= n < 0x800 ==>
                  && |b| == 2 && 0xC2 <= b[0] < 0xE0 && 0x80 <= b[1] < 0xC0
                  && n == (b[0] as int - 0xC0) * 64 + (b[1] as int - 0x80))
            && (0x800 <= n < 0x1_0000 ==>
                  && |b| == 3 && 0xE0 <= b[0] < 0xF0 && 0x80 <= b[1] < 0xC0 && 0x80 <= b[2] < 0xC0
                  && n == (b[0] as int - 0xE0) * 4096 + (b[1] as int - 0x80) * 64 + (b[2] as int - 0x80))
            && (0x1_0000 <= n ==>
                  && |b| == 4 && 0xF0 <= b[0] < 0xF5
                  && 0x80 <= b[1] < 0xC0 && 0x80 <= b[2] < 0xC0 && 0x80 <= b[3] < 0xC0
                  && n == (b[0] as int - 0xF0) * 262144 + (b[1] as int - 0x80) * 4096
                          + (b[2] as int - 0x80) * 64 + (b[3] as int - 0x80))
  {
    var n := c as int;
    if n < 0x80 {
    } else if n < 0x800 {
    } else if n < 0x1_0000 {
      ThreeDigits(n);
    } else {
      FourDigits(n);
    }
  }

  lemma OfTwo(a: nat, b: nat)
    requires b < 0x40
    ensures (a * 0x40 + b) / 0x40 == a && (a * 0x40 + b) % 0x40 == b
  {
  }

  lemma OfThree(a: nat, b: nat, c: nat)
    requires b < 0x40 && c < 0x40
    ensures var n := a * 0x1000 + b * 0x40 + c; n / 0x1000 == a && n / 0x40 % 0x40 == b && n % 0x40 == c
  {
    OfTwo(a * 0x40 + b, c);
    OfTwo(a, b);
  }

  lemma OfFour(a: nat, b: nat, c: nat, d: nat)
    requires b < 0x40 && c < 0x40 && d < 0x40
    ensures var n := a * 0x4_0000 + b * 0x1000 + c * 0x40 + d;
            n / 0x4_0000 == a && n / 0x1000 % 0x40 == b && n / 0x40 % 0x40 == c && n % 0x40 == d
  {
    var n := a * 0x4_0000 + b * 0x1000 + c * 0x40 + d;
    var high := a * 0x1000 + b * 0x40 + c;
    OfTwo(high, d);
    OfThree(a, b, c);
    assert n == high * 0x40 + d;
    assert n / 0x1000 == high / 0x40 && n / 0x4_0000 == high / 0x1000;
  }

  lemma SpelledInTwo(c: char, b: seq<byte>)
    requires |b| == 2 && 0xC0 <= b[0] && Continues(b[1])
    requires 0x80 <= c as int == (b[0] as int - 0xC0) * 0x40 + Low(b[1]) < 0x800
    ensures EncodeChar(c) == b
  {
    OfTwo(b[0] - 0xC0, b[1] - 0x80);
  }

  lemma SpelledInThree(c: char, b: seq<byte>)
    requires |b| == 3 && 0xE0 <= b[0] && Continues(b[1]) && Continues(b[2])
    requires 0x800 <= c as int == (b[0] as int - 0xE0) * 0x1000 + Low(b[1]) * 0x40 + Low(b[2]) < 0x1_0000
    ensures EncodeChar(c) == b
  {
    OfThree(b[0] - 0xE0, b[1] - 0x80, b[2] - 0x80);
  }

  lemma SpelledInFour(c: char, b: seq<byte>)
    requires |b| == 4 && 0xF0 <= b[0] && Continues(b[1]) && Continues(b[2]) && Continues(b[3])
    requires 0x1_0000 <= c as int ==
             (b[0] as int - 0xF0) * 0x4_0000 + Low(b[1]) * 0x1000 + Low(b[2]) * 0x40 + Low(b[3])
    ensures EncodeChar(c) == b
  {
    OfFour(b[0] - 0xF0, b[1] - 0x80, b[2] - 0x80, b[3] - 0x80);
  }

  /** What is decoded is spelled by the bytes it was decoded from. */
  lemma EncodeDecodedChar(b: seq<byte>)
    requires DecodeChar(b).Some?
    ensures var (c, n) := DecodeChar(b).value; n <= |b| && EncodeChar(c) == b[..n]
  {
    var c := DecodeChar(b).value.0;
    if b[0] < 0x80 {
    } else if b[0] < 0xE0 {
      hide EncodeChar;
      SpelledInTwo(c, b[..2]);
    } else if b[0] < 0xF0 {
      hide EncodeChar;
      SpelledInThree(c, b[..3]);
    } else {
      hide EncodeChar;
      SpelledInFour(c, b[..4]);
    }
  }

  /** The only bytes that decode to a text are its encoding. */
  lemma {:induction false} EncodeDecoded(b: seq<byte>, s: string)
    ensures Decode(b) == Some(s) <==> Encode(s) == b
    decreases |b|
  {
    hide EncodeChar, DecodeChar;
    DecodeEncoded(s);
    if Decode(b) == Some(s) && b != [] {
      EncodeDecodedChar(b);
      var n := DecodeChar(b).value.1;
      assert s[1..] == Decode(b[n..]).value;
      EncodeDecoded(b[n..], s[1..]);
      assert b == b[..n] + b[n..];
    }
  }

  predicate Ascii(c: char) {
    c as int < 0x80
  }
}
