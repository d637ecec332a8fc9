/**
 Percent-encoding of text in URIs, through its UTF-8 bytes.

 Encoding keeps the unreserved characters and writes every other byte as a
 percent sign and two hexadecimal digits. Decoding also reads a plus sign as a
 space, and a plus sign in front of a hexadecimal digit as nothing, as the
 number parser it uses does. It fails on a percent sign without two digits
 after it, and on bytes that are not UTF-8. What encoding writes holds neither
 sign except where a byte was escaped, so decoding gives it back.
 */
module Percent {
  import opened Common
  import opened Utf8

  predicate Unreserved(b: byte) {
    65 <= b <= 90 || 97 <= b <= 122 || 48 <= b <= 57 || b == 45 || b == 46 || b == 95 || b == 126 || b == 64
  }

  function HexDigit(d: nat): byte
    requires d < 16
  {
    if d < 10 then d + 48 else d + 55
  }

  function HexValue(b: byte): Option<nat> {
    if 48 <= b <= 57 then Some(b - 48)
    else if 65 <= b <= 70 then Some(b - 55)
    else if 97 <= b <= 102 then Some(b - 87)
    else None
  }

  function EncodedByte(b: byte): seq<byte> {
    if Unreserved(b) then [b] else [37, HexDigit(b / 16), HexDigit(b % 16)]
  }

  function EncodedBytes(bytes: seq<byte>): seq<byte> {
    if bytes == [] then [] else EncodedByte(bytes[0]) + EncodedBytes(bytes[1..])
  }

  /** ASCII bytes as characters. */
  function Chars(bytes: seq<byte>): (s: string)
    ensures |s| == |bytes|
  {
    seq(|bytes|, i requires 0 <= i < |bytes| => bytes[i] as char)
  }

  function PercentEncode(s: string): string {
    Chars(EncodedBytes(Encode(s)))
  }

  /** `u8::from_str_radix` of two bytes: a plus sign may stand for the first digit. */
  function HexPair(high: byte, low: byte): Option<byte> {
    match HexValue(low)
    case None => None
    case Some(l) =>
      if high == 43 then Some(l)
      else match HexValue(high) case None => None case Some(h) => Some(16 * h + l)
  }

  function DecodedBytes(bytes: seq<byte>): Option<seq<byte>> {
    if bytes == [] then Some([])
    else if bytes[0] == 37 then
      if |bytes| < 3 then None
      else match HexPair(bytes[1], bytes[2])
        case None => None
        case Some(b) => Prepended(b, DecodedBytes(bytes[3..]))
    else Prepended(if bytes[0] == 43 then 32 else bytes[0], DecodedBytes(bytes[1..]))
  }

  function Prepended(b: byte, rest: Option<seq<byte>>): Option<seq<byte>> {
    if rest.None? then None else Some([b] + rest.value)
  }

  function PercentDecode(s: string): Option<string> {
    match DecodedBytes(Encode(s))
    case None => None
    case Some(bytes) => Decode(bytes)
  }

  // ---------------------------------------------------------------- escapes

  const HEX := "0123456789ABCDEF"
  const HEX_SMALL := "0123456789abcdef"

  /** Letters, digits, and these five signs stay; every other byte is written with two capital digits. */
  lemma EncodedByteMeaning(b: byte)
    ensures var kept := || 'A' <= b as char <= 'Z' || 'a' <= b as char <= 'z' || '0' <= b as char <= '9'
                        || b as char in {'-', '.', '_', '~', '@'};
            EncodedByte(b) == if kept then [b] else ['%' as int, HEX[b / 16] as int, HEX[b % 16] as int]
  {
  }

  lemma {:induction false} EncodedBytesConcat(a: seq<byte>, b: seq<byte>, c: byte)
    ensures EncodedBytes(a + b) == EncodedBytes(a) + EncodedBytes(b)
    ensures EncodedBytes([c]) == EncodedByte(c)
  {
    hide EncodedByte;
    assert [c][1..] == [] && EncodedByte(c) + [] == EncodedByte(c);
    if a == [] {
      assert a + b == b;
    } else {
      EncodedBytesConcat(a[1..], b, c);
      DropOfConcat(a, b, 1);
      Associative(EncodedByte(a[0]), EncodedBytes(a[1..]), EncodedBytes(b));
    }
  }

  /** The byte is the hexadecimal digit d, in either case. */
  predicate HexIs(b: byte, d: nat) {
    d < 16 && (b as char == HEX[d] || b as char == HEX_SMALL[d])
  }

  lemma HexValueMeaning(b: byte, d: nat)
    ensures HexValue(b) == Some(d) <==> HexIs(b, d)
  {
  }

  /** An escape's two digits; a plus sign reads as a zero in front. */
  lemma HexPairMeaning(high: byte, low: byte, v: byte)
    ensures HexPair(high, low) == Some(v) <==>
            || (high as char == '+' && HexIs(low, v))
            || exists h: nat, l: nat :: HexIs(high, h) && HexIs(low, l) && v == 16 * h + l
  {
    hide HexIs, HexValue;
    forall d: nat ensures HexValue(low) == Some(d) <==> HexIs(low, d) {
      HexValueMeaning(low, d);
    }
    forall d: nat ensures HexValue(high) == Some(d) <==> HexIs(high, d) {
      HexValueMeaning(high, d);
    }
    PlusIsNoDigit();
  }

  lemma PlusIsNoDigit()
    ensures HexValue(43) == None
  {
  }

  /** What each kind of byte decodes to. */
  lemma DecodedMeaning(b: byte, high: byte, low: byte, rest: seq<byte>)
    ensures DecodedBytes([]) == Some([])
    ensures b as char != '%' ==>
              DecodedBytes([b] + rest) == Prepended(if b as char == '+' then ' ' as int else b, DecodedBytes(rest))
    ensures DecodedBytes(['%' as int]) == DecodedBytes(['%' as int, low]) == None
    ensures HexPair(high, low) == None ==> DecodedBytes(['%' as int, high, low] + rest) == None
    ensures forall v :: HexPair(high, low) == Some(v) ==>
              DecodedBytes(['%' as int, high, low] + rest) == Prepended(v, DecodedBytes(rest))
  {
    hide HexPair;
    assert ([b] + rest)[1..] == rest && (['%' as int, high, low] + rest)[3..] == rest;
  }

  // ---------------------------------------------------------------- the loops

  method PercentEncodeLoop(s: string) returns (r: string)
    ensures r == PercentEncode(s)
  {
    hide Unreserved, HexDigit, Encode;
    var bytes := Encode(s);
    var out: seq<byte> := [];
    var i := 0;
    assert bytes[0..] == bytes;
    while i < |bytes|
      invariant 0 <= i <= |bytes|
      invariant EncodedBytes(bytes) == out + EncodedBytes(bytes[i..])
    {
      DropOfDrop(bytes, i, 1);
      Associative(out, EncodedByte(bytes[i]), EncodedBytes(bytes[i + 1..]));
      out := out + (if Unreserved(bytes[i]) then [bytes[i]]
                    else [37, HexDigit(bytes[i] / 16), HexDigit(bytes[i] % 16)]);
      i := i + 1;
    }
    assert out + [] == out;
    r := Chars(out);
  }

  /** `out` is decoded, and the rest of the bytes decide the whole. */
  ghost predicate Decoding(bytes: seq<byte>, i: nat, out: seq<byte>) {
    i <= |bytes| &&
    DecodedBytes(bytes) == match DecodedBytes(bytes[i..]) case None => None case Some(rest) => Some(out + rest)
  }

  lemma DecodingStep(bytes: seq<byte>, i: nat, out: seq<byte>, k: nat, b: byte)
    requires Decoding(bytes, i, out) && i + k <= |bytes|
    requires DecodedBytes(bytes[i..]) == Prepended(b, DecodedBytes(bytes[i + k..]))
    ensures Decoding(bytes, i + k, out + [b])
  {
    hide DecodedBytes;
    if DecodedBytes(bytes[i + k..]).Some? {
      Associative(out, [b], DecodedBytes(bytes[i + k..]).value);
    }
  }

  lemma DecodedStep(bytes: seq<byte>, i: nat)
    requires i < |bytes|
    ensures DecodedBytes(bytes[i..]) ==
            if bytes[i] == 37 then
              if i + 3 > |bytes| || HexPair(bytes[i + 1], bytes[i + 2]).None? then None
              else Prepended(HexPair(bytes[i + 1], bytes[i + 2]).value, DecodedBytes(bytes[i + 3..]))
            else Prepended(if bytes[i] == 43 then 32 else bytes[i], DecodedBytes(bytes[i + 1..]))
  {
    hide HexPair;
    DropOfDrop(bytes, i, 1);
    if i + 3 <= |bytes| {
      DropOfDrop(bytes, i, 3);
    }
  }

  method PercentDecodeLoop(s: string) returns (r: Option<string>)
    ensures r == PercentDecode(s)
  {
    hide DecodedBytes, HexPair, Encode, Decode;
    var bytes := Encode(s);
    var out: seq<byte> := [];
    var i: nat := 0;
    DecodingStarts(bytes);
    while i < |bytes|
      invariant i <= |bytes| && Decoding(bytes, i, out)
    {
      DecodedStep(bytes, i);
      if bytes[i] == 37 {
        if i + 3 > |bytes| {
          return None;
        }
        var b := HexPair(bytes[i + 1], bytes[i + 2]);
        if b.None? {
          return None;
        }
        DecodingStep(bytes, i, out, 3, b.value);
        out := out + [b.value];
        i := i + 3;
      } else {
        var b: byte := if bytes[i] == 43 then 32 else bytes[i];
        DecodingStep(bytes, i, out, 1, b);
        out := out + [b];
        i := i + 1;
      }
    }
    DecodingEnds(bytes, out);
    r := Decode(out);
  }

  lemma DecodingStarts(bytes: seq<byte>)
    ensures Decoding(bytes, 0, [])
  {
    assert bytes[0..] == bytes;
    if DecodedBytes(bytes).Some? {
      assert [] + DecodedBytes(bytes).value == DecodedBytes(bytes).value;
    }
  }

  lemma DecodingEnds(bytes: seq<byte>, out: seq<byte>)
    requires Decoding(bytes, |bytes|, out)
    ensures DecodedBytes(bytes) == Some(out)
  {
    assert bytes[|bytes|..] == [] && out + [] == out;
  }

  // ---------------------------------------------------------------- round trip

  lemma HexPairOfByte(b: byte)
    ensures HexPair(HexDigit(b / 16), HexDigit(b % 16)) == Some(b)
  {
  }

  /** Decoding an encoded stretch gives its bytes, whatever follows. */
  lemma {:induction false} DecodeEncodedBytes(bytes: seq<byte>, rest: seq<byte>)
    ensures DecodedBytes(EncodedBytes(bytes) + rest) ==
            match DecodedBytes(rest) case None => None case Some(later) => Some(bytes + later)
  {
    if bytes == [] {
      assert [] + rest == rest;
      if DecodedBytes(rest).Some? {
        assert [] + DecodedBytes(rest).value == DecodedBytes(rest).value;
      }
    } else {
      hide DecodedBytes;
      var b, more := bytes[0], EncodedBytes(bytes[1..]) + rest;
      DecodeEncodedBytes(bytes[1..], rest);
      HexPairOfByte(b);
      Associative(EncodedByte(b), EncodedBytes(bytes[1..]), rest);
      DecodeOneByte(b, more);
      assert bytes == [b] + bytes[1..];
      if DecodedBytes(rest).Some? {
        Associative([b], bytes[1..], DecodedBytes(rest).value);
      }
    }
  }

  lemma DecodeOneByte(b: byte, more: seq<byte>)
    ensures DecodedBytes(EncodedByte(b) + more) == Prepended(b, DecodedBytes(more))
  {
    hide HexPair;
    HexPairOfByte(b);
    DropOfConcat(EncodedByte(b), more, |EncodedByte(b)|);
    assert EncodedByte(b)[|EncodedByte(b)|..] == [] && [] + more == more;
  }

  ghost predicate AsciiOnly(s: string) {
    forall i :: 0 <= i < |s| ==> Ascii(s[i])
  }

  lemma {:induction false} EncodeConcat(a: string, b: string)
    ensures Encode(a + b) == Encode(a) + Encode(b)
  {
    hide EncodeChar;
    if a == [] {
      assert a + b == b;
    } else {
      EncodeConcat(a[1..], b);
      DropOfConcat(a, b, 1);
      Associative(EncodeChar(a[0]), Encode(a[1..]), Encode(b));
    }
  }

  lemma {:induction false} EncodeAscii(bytes: seq<byte>)
    requires forall i :: 0 <= i < |bytes| ==> bytes[i] < 128
    ensures Encode(Chars(bytes)) == bytes
  {
    if bytes != [] {
      EncodeAscii(bytes[1..]);
      assert Chars(bytes)[1..] == Chars(bytes[1..]);
      assert bytes == [bytes[0]] + bytes[1..];
    }
  }

  predicate EscapeByte(b: byte) {
    Unreserved(b) || b == 37
  }

  lemma {:induction false} EncodedBytesPlain(bytes: seq<byte>)
    ensures forall i :: 0 <= i < |EncodedBytes(bytes)| ==> EscapeByte(EncodedBytes(bytes)[i])
  {
    if bytes != [] {
      EncodedBytesPlain(bytes[1..]);
    }
  }

  /** Encoded text is made of unreserved characters and percent signs. */
  lemma EncodedChars(s: string)
    ensures forall i :: 0 <= i < |PercentEncode(s)| ==>
              Ascii(PercentEncode(s)[i]) && EscapeByte(PercentEncode(s)[i] as int)
  {
    EncodedBytesPlain(Encode(s));
  }

  /** The bytes of an encoded text followed by ASCII text. */
  lemma EncodeEncoded(s: string)
    ensures Encode(PercentEncode(s)) == EncodedBytes(Encode(s))
  {
    EncodedBytesPlain(Encode(s));
    EncodeAscii(EncodedBytes(Encode(s)));
  }

  /** Percent-decoding undoes percent-encoding, for every text. */
  lemma DecodeEncode(s: string)
    ensures PercentDecode(PercentEncode(s)) == Some(s)
  {
    var bytes := Encode(s);
    EncodeEncoded(s);
    DecodeEncodedBytes(bytes, []);
    assert EncodedBytes(bytes) + [] == EncodedBytes(bytes) && bytes + [] == bytes;
    DecodeEncoded(s);
  }

  /** Two encoded texts with a colon between them decode to the texts with a colon between them. */
  lemma DecodeLabel(a: string, b: string)
    ensures PercentDecode(PercentEncode(a) + ":" + PercentEncode(b)) == Some(a + ":" + b)
  {
    hide Encode, DecodedBytes, EncodedBytes;
    var x, y := EncodedBytes(Encode(a)), EncodedBytes(Encode(b));
    EncodeEncoded(a);
    EncodeEncoded(b);
    ColonDecodes(y);
    EncodeConcat(PercentEncode(a) + ":", PercentEncode(b));
    EncodeConcat(PercentEncode(a), ":");
    EncodeConcat(a + ":", b);
    EncodeConcat(a, ":");
    Associative(x, [58], y);
    DecodeEncodedBytes(Encode(b), []);
    assert y + [] == y && Encode(b) + [] == Encode(b);
    DecodeEncodedBytes(Encode(a), [58] + y);
    Associative(Encode(a), [58], Encode(b));
    DecodeEncoded(a + ":" + b);
  }

  lemma ColonDecodes(y: seq<byte>)
    ensures Encode(":") == [58] && DecodedBytes([]) == Some([])
    ensures DecodedBytes([58] + y) == Prepended(58, DecodedBytes(y))
  {
    assert ":"[1..] == [] && ([58] + y)[1..] == y;
  }

  predicate Literal(c: char) {
    c != '%' && c != '+'
  }

  ghost predicate Unescaped(bytes: seq<byte>) {
    forall i :: 0 <= i < |bytes| ==> bytes[i] != 37 && bytes[i] != 43
  }

  /** Text without percent or plus signs is its own decoding. */
  lemma DecodeLiteral(s: string)
    requires forall i :: 0 <= i < |s| ==> Literal(s[i])
    ensures PercentDecode(s) == Some(s)
  {
    hide Encode, DecodedBytes;
    LiteralBytes(s);
    DecodeUnescaped(Encode(s));
    DecodeEncoded(s);
  }

  lemma {:induction false} DecodeUnescaped(bytes: seq<byte>)
    requires Unescaped(bytes)
    ensures DecodedBytes(bytes) == Some(bytes)
  {
    if bytes != [] {
      DecodeUnescaped(bytes[1..]);
      assert bytes == [bytes[0]] + bytes[1..];
    }
  }

  lemma {:induction false} LiteralBytes(s: string)
    requires forall i :: 0 <= i < |s| ==> Literal(s[i])
    ensures Unescaped(Encode(s))
  {
    hide EncodeChar;
    if s != [] {
      LiteralBytes(s[1..]);
      LiteralChar(s[0]);
    }
  }

  lemma LiteralChar(c: char)
    requires Literal(c)
    ensures Unescaped(EncodeChar(c))
  {
  }
}
