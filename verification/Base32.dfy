/** Base32 (section 6 of RFC 4648) as bit strings, and the three loops of the repository that compute it. */
module Base32 {
  // The loops are the decoder and the encoder of zvault-otp, and the decoder of the share page.

  import opened Common
  import opened ModularPower
  import opened Bits

  // ---------------------------------------------------------------- the alphabet

  const ALPHABET := "ABCDEFGHIJKLMNOPQRSTUVWXYZ234567"

  function Symbol(v: nat): char
    requires v < 32
  {
    if v < 26 then (v + 65) as char else (v + 24) as char
  }

  /** The position of a symbol in the alphabet. */
  function SymbolValue(c: char): Option<nat> {
    if 'A' <= c <= 'Z' then Some(c as int - 65)
    else if '2' <= c <= '7' then Some(c as int - 24)
    else None
  }

  lemma AlphabetInOrder(v: nat)
    requires v < 32
    ensures ALPHABET[v] == Symbol(v) && SymbolValue(Symbol(v)) == Some(v)
  {
    if v < 8 {} else if v < 16 {} else if v < 24 {}
  }

  function Upper(c: char): char {
    if 'a' <= c <= 'z' then (c as int - 32) as char else c
  }

  function Values(s: string): Option<seq<nat>> {
    if s == [] then Some([])
    else match SymbolValue(s[0])
      case None => None
      case Some(v) => match Values(s[1..]) case None => None case Some(rest) => Some([v] + rest)
  }

  function Spelled(values: seq<nat>): string
    requires Fit(values, 5)
  {
    assert Pow(2, 5) == 32;
    seq(|values|, i requires 0 <= i < |values| => Symbol(values[i]))
  }

  // ---------------------------------------------------------------- the standard

  /** The bytes of a symbol string: bits that do not fill a byte are dropped. */
  function Decoded(values: seq<nat>): seq<nat> {
    Gathered(Spread(values, 5), 8)
  }

  function Padding(bytes: nat): nat {
    (5 - 8 * bytes % 5) % 5
  }

  /** The symbols of a byte string, the last one filled up with zero bits. */
  function Encoded(bytes: seq<nat>): seq<nat> {
    Gathered(Spread(bytes, 8) + Falses(Padding(|bytes|)), 5)
  }

  ghost predicate Bytes(bytes: seq<nat>) {
    forall i :: 0 <= i < |bytes| ==> bytes[i] < 256
  }

  lemma {:induction false} GatheredFit(bits: seq<bool>, w: nat)
    requires w > 0
    ensures Fit(Gathered(bits, w), w)
    decreases |bits|
  {
    if |bits| >= w {
      GatheredFit(bits[w..], w);
      BitsOfNumber(bits[..w]);
    }
  }

  lemma PaddingFills(bytes: nat)
    ensures (8 * bytes + Padding(bytes)) % 5 == 0 && Padding(bytes) < 5
  {
  }

  /** Decoding what was encoded gives the bytes back, and every symbol is a five-bit value. */
  lemma DecodeEncode(bytes: seq<nat>)
    requires Bytes(bytes)
    ensures Fit(Encoded(bytes), 5) && Decoded(Encoded(bytes)) == bytes
  {
    hide Spread, Gathered, Padding;
    assert Pow(2, 8) == 256;
    var bits := Spread(bytes, 8) + Falses(Padding(|bytes|));
    PaddingFills(|bytes|);
    SpreadGather(bits, 5);
    GatheredFit(bits, 5);
    GatherSpread(bytes, 8, Falses(Padding(|bytes|)));
  }

  // ---------------------------------------------------------------- the Rust codec

  predicate Skipped(c: char) {
    c == ' ' || c == '-' || c == '=' || c == '\t'
  }

  function Cleaned(s: string): string {
    if s == [] then []
    else (if Skipped(s[0]) then [] else [Upper(s[0])]) + Cleaned(s[1..])
  }

  /** Spaces, tabs, dashes and fill are dropped, wherever they stand, and case is ignored. */
  lemma CleanedEach(c: char)
    ensures c in {' ', '\t', '-', '='} ==> Cleaned([c]) == []
    ensures 'a' <= c <= 'z' ==> Cleaned([c]) == [('A' as int + (c as int - 'a' as int)) as char]
    ensures c !in {' ', '\t', '-', '='} && !('a' <= c <= 'z') ==> Cleaned([c]) == [c]
  {
    assert [c][1..] == [];
  }

  /** What `base32_decode` gives. */
  function RustDecoded(s: string): Option<seq<nat>> {
    match Values(Cleaned(s)) case None => None case Some(values) => Some(Decoded(values))
  }

  /** The loop has written `out` and keeps the last bits, fewer than a byte, in the buffer. */
  ghost predicate Held(values: seq<nat>, out: seq<nat>, buffer: nat, bits: nat) {
    bits < 8 && Fit(out, 8) && Spread(values, 5) == Spread(out, 8) + BitsOf(buffer, bits)
  }

  lemma TakeSymbol(values: seq<nat>, out: seq<nat>, buffer: nat, bits: nat, v: nat)
    requires v < 32 && Held(values, out, buffer, bits)
    ensures Pow(2, 5) == 32
    ensures Spread(values + [v], 5) == Spread(out, 8) + BitsOf(buffer * 32 + v, bits + 5)
  {
    hide Spread, BitsOf;
    assert Pow(2, 5) == 32;
    SpreadMore(values, v, 5);
    BitsAppend(buffer, bits, v, 5);
    Associative(Spread(out, 8), BitsOf(buffer, bits), BitsOf(v, 5));
  }

  lemma GiveByte(values: seq<nat>, out: seq<nat>, buffer: nat, bits: nat)
    requires 8 <= bits <= 12 && Fit(out, 8) && Spread(values, 5) == Spread(out, 8) + BitsOf(buffer, bits)
    ensures Pow(2, bits - 8) > 0
    ensures var b := buffer / Pow(2, bits - 8) % 256;
            Held(values, out + [b], buffer % Pow(2, bits - 8), bits - 8)
  {
    hide Spread, BitsOf, Pow;
    var left := bits - 8;
    PowPositive(2, left);
    BitsSplit(buffer, 8, left);
    var top := buffer / Pow(2, left);
    DigitSizes();
    BitsOfMod(top, 8);
    SpreadMore(out, top % 256, 8);
    Associative(Spread(out, 8), BitsOf(top, 8), BitsOf(buffer % Pow(2, left), left));
  }

  lemma DigitSizes()
    ensures Pow(2, 5) == 32 && Pow(2, 8) == 256
  {
  }

  lemma HeldEnds(values: seq<nat>, out: seq<nat>, buffer: nat, bits: nat)
    requires Held(values, out, buffer, bits)
    ensures out == Decoded(values)
  {
    GatherSpread(out, 8, BitsOf(buffer, bits));
  }

  lemma {:induction false} ValuesMore(s: string, c: char)
    ensures Values(s + [c]) == match (Values(s), SymbolValue(c))
                               case (Some(values), Some(v)) => Some(values + [v])
                               case _ => None
  {
    if s == [] {
      assert [] + [c] == [c] && [c][1..] == [];
      assert SymbolValue(c).Some? ==> [] + [SymbolValue(c).value] == [SymbolValue(c).value] + [];
    } else {
      ValuesMore(s[1..], c);
      assert (s + [c])[1..] == s[1..] + [c];
      if SymbolValue(s[0]).Some? && Values(s[1..]).Some? && SymbolValue(c).Some? {
        Associative([SymbolValue(s[0]).value], Values(s[1..]).value, [SymbolValue(c).value]);
      }
    }
  }

  lemma {:induction false} CleanedMore(s: string, c: char)
    ensures Cleaned(s + [c]) == Cleaned(s) + (if Skipped(c) then [] else [Upper(c)])
  {
    if s == [] {
      assert [] + [c] == [c] && [c][1..] == [];
    } else {
      CleanedMore(s[1..], c);
      assert (s + [c])[1..] == s[1..] + [c];
      Associative(if Skipped(s[0]) then [] else [Upper(s[0])], Cleaned(s[1..]),
                  if Skipped(c) then [] else [Upper(c)]);
    }
  }

  lemma {:induction false} ValuesFail(a: string, b: string)
    requires Values(a).None?
    ensures Values(a + b).None?
  {
    if SymbolValue(a[0]).Some? {
      ValuesFail(a[1..], b);
      assert (a + b)[1..] == a[1..] + b;
    }
  }

  lemma {:induction false} CleanedConcat(a: string, b: string)
    ensures Cleaned(a + b) == Cleaned(a) + Cleaned(b)
  {
    if a == [] {
      assert a + b == b;
    } else {
      CleanedConcat(a[1..], b);
      assert (a + b)[1..] == a[1..] + b;
      Associative(if Skipped(a[0]) then [] else [Upper(a[0])], Cleaned(a[1..]), Cleaned(b));
    }
  }

  method Base32Decode(input: string) returns (r: Option<seq<nat>>)
    ensures r == RustDecoded(input)
  {
    hide Spread, BitsOf, Pow, Cleaned, Values, Decoded;
    var out: seq<nat> := [];
    var buffer: nat, bits: nat := 0, 0;
    ghost var values: seq<nat> := [];
    var i := 0;
    NothingHeld(input);
    while i < |input|
      invariant 0 <= i <= |input|
      invariant Values(Cleaned(input[..i])) == Some(values) && Held(values, out, buffer, bits)
    {
      var c := input[i];
      assert input[..i + 1] == input[..i] + [c];
      CleanedMore(input[..i], c);
      i := i + 1;
      if Skipped(c) {
        assert Cleaned(input[..i - 1]) + [] == Cleaned(input[..i - 1]);
        continue;
      }
      ValuesMore(Cleaned(input[..i - 1]), Upper(c));
      var v := SymbolValue(Upper(c));
      if v.None? {
        StopsAt(input, i);
        return None;
      }
      TakeSymbol(values, out, buffer, bits, v.value);
      values := values + [v.value];
      buffer, bits := buffer * 32 + v.value, bits + 5;
      if bits >= 8 {
        GiveByte(values, out, buffer, bits);
        bits := bits - 8;
        out := out + [buffer / Pow(2, bits) % 256];
        buffer := buffer % Pow(2, bits);
      }
    }
    assert input[..i] == input;
    HeldEnds(values, out, buffer, bits);
    r := Some(out);
  }

  lemma NothingHeld(input: string)
    ensures Cleaned(input[..0]) == [] && Values([]) == Some([])
    ensures Held([], [], 0, 0) && Waiting([], [], 0, 0)
  {
  }

  lemma StopsAt(input: string, i: nat)
    requires i <= |input| && Values(Cleaned(input[..i])).None?
    ensures Values(Cleaned(input)).None?
  {
    assert input == input[..i] + input[i..];
    CleanedConcat(input[..i], input[i..]);
    ValuesFail(Cleaned(input[..i]), Cleaned(input[i..]));
  }

  /** The encoder has written `out` and keeps the last bits, fewer than a symbol, in the buffer. */
  ghost predicate Waiting(bytes: seq<nat>, out: seq<nat>, buffer: nat, bits: nat) {
    Fit(out, 5) && Spread(bytes, 8) == Spread(out, 5) + BitsOf(buffer, bits)
  }

  lemma TakeByte(bytes: seq<nat>, out: seq<nat>, buffer: nat, bits: nat, b: nat)
    requires b < 256 && Waiting(bytes, out, buffer, bits)
    ensures Waiting(bytes + [b], out, buffer * 256 + b, bits + 8)
  {
    hide Spread, BitsOf;
    assert Pow(2, 8) == 256;
    SpreadMore(bytes, b, 8);
    BitsAppend(buffer, bits, b, 8);
    Associative(Spread(out, 5), BitsOf(buffer, bits), BitsOf(b, 8));
  }

  lemma GiveSymbol(bytes: seq<nat>, out: seq<nat>, buffer: nat, bits: nat)
    requires bits >= 5 && Waiting(bytes, out, buffer, bits)
    ensures Pow(2, bits - 5) > 0
    ensures Waiting(bytes, out + [buffer / Pow(2, bits - 5) % 32], buffer, bits - 5)
  {
    hide Spread, BitsOf, Pow;
    var left := bits - 5;
    PowPositive(2, left);
    BitsSplit(buffer, 5, left);
    BitsOfMod(buffer, left);
    var top := buffer / Pow(2, left);
    DigitSizes();
    BitsOfMod(top, 5);
    SpreadMore(out, top % 32, 5);
    Associative(Spread(out, 5), BitsOf(top, 5), BitsOf(buffer, left));
  }

  /** The last symbol is filled up with zero bits. */
  lemma WaitingEnds(bytes: seq<nat>, out: seq<nat>, buffer: nat, bits: nat)
    requires bits < 5 && Waiting(bytes, out, buffer, bits)
    ensures Pow(2, 5 - bits) > 0
    ensures Encoded(bytes) == out + (if bits > 0 then [buffer * Pow(2, 5 - bits) % 32] else [])
  {
    hide Spread, BitsOf, Pow, Gathered;
    PowPositive(2, 5 - bits);
    assert Padding(|bytes|) == if bits > 0 then 5 - bits else 0 by {
      assert 8 * |bytes| == 5 * |out| + bits;
      DivModUnique(8 * |bytes|, |out|, bits, 5);
    }
    if bits > 0 {
      var pad := 5 - bits;
      var last := buffer * Pow(2, pad);
      BitsAppend(buffer, bits, 0, pad);
      ZeroBits(pad);
      DigitSizes();
      BitsOfMod(last, 5);
      SpreadMore(out, last % 32, 5);
      Associative(Spread(out, 5), BitsOf(buffer, bits), Falses(pad));
      FinishEncoding(bytes, out + [last % 32]);
    } else {
      assert BitsOf(buffer, 0) == [] && Spread(out, 5) + [] == Spread(out, 5);
      assert Spread(bytes, 8) + [] == Spread(bytes, 8);
      assert out + [] == out;
      FinishEncoding(bytes, out);
    }
  }

  lemma FinishEncoding(bytes: seq<nat>, out: seq<nat>)
    requires Fit(out, 5) && Spread(bytes, 8) + Falses(Padding(|bytes|)) == Spread(out, 5)
    ensures Encoded(bytes) == out
  {
    hide Spread, Padding;
    GatherSpread(out, 5, []);
    assert Spread(out, 5) + [] == Spread(out, 5);
  }

  method Base32Encode(bytes: seq<nat>) returns (r: string)
    requires Bytes(bytes)
    ensures Fit(Encoded(bytes), 5) && r == Spelled(Encoded(bytes))
  {
    hide Spread, BitsOf, Pow, Encoded;
    DecodeEncode(bytes);
    DigitSizes();
    r := "";
    var buffer: nat, bits: nat := 0, 0;
    ghost var out: seq<nat> := [];
    var i := 0;
    NothingHeld([]);
    assert bytes[..0] == [];
    while i < |bytes|
      invariant 0 <= i <= |bytes| && bits < 5
      invariant Waiting(bytes[..i], out, buffer, bits) && r == Spelled(out)
    {
      TakeByte(bytes[..i], out, buffer, bits, bytes[i]);
      assert bytes[..i + 1] == bytes[..i] + [bytes[i]];
      buffer, bits := buffer * 256 + bytes[i], bits + 8;
      while bits >= 5
        invariant Waiting(bytes[..i + 1], out, buffer, bits) && r == Spelled(out)
      {
        GiveSymbol(bytes[..i + 1], out, buffer, bits);
        bits := bits - 5;
        var v := buffer / Pow(2, bits) % 32;
        out := out + [v];
        r := r + [Symbol(v)];
      }
      BitsOfMod(buffer, bits);
      buffer := buffer % Pow(2, bits);
      i := i + 1;
    }
    assert bytes[..i] == bytes;
    WaitingEnds(bytes, out, buffer, bits);
    if bits > 0 {
      r := r + [Symbol(buffer * Pow(2, 5 - bits) % 32)];
    } else {
      assert out + [] == out;
    }
  }

  lemma {:induction false} SpelledValues(values: seq<nat>)
    requires Fit(values, 5)
    ensures RustDecoded(Spelled(values)) == Some(Decoded(values))
  {
    CleanSpelled(values);
  }

  lemma SymbolIsClean(v: nat)
    requires v < 32
    ensures !Skipped(Symbol(v)) && Upper(Symbol(v)) == Symbol(v)
  {
  }

  lemma {:induction false} CleanSpelled(values: seq<nat>)
    requires Fit(values, 5)
    ensures Cleaned(Spelled(values)) == Spelled(values) && Values(Spelled(values)) == Some(values)
  {
    hide Pow, SymbolValue, Symbol;
    DigitSizes();
    if values != [] {
      var rest := values[1..];
      CleanSpelled(rest);
      SymbolIsClean(values[0]);
      AlphabetInOrder(values[0]);
      assert Spelled(values)[1..] == Spelled(rest);
      assert values == [values[0]] + rest;
    }
  }

  /** Text produced by the encoder is read back to the bytes it was made from. */
  lemma RoundTrip(bytes: seq<nat>)
    requires Bytes(bytes)
    ensures Fit(Encoded(bytes), 5) && RustDecoded(Spelled(Encoded(bytes))) == Some(bytes)
  {
    DecodeEncode(bytes);
    SpelledValues(Encoded(bytes));
  }

  // ---------------------------------------------------------------- the browser's decoder

  /** JavaScript's white space, within ASCII. */
  predicate Space(c: char) {
    '\t' <= c <= '\r' || c == ' '
  }

  /** White space that the Rust decoder does not skip. */
  predicate Break(c: char) {
    '\n' <= c <= '\r'
  }

  function BrowserCleaned(s: string): string {
    if s == [] then []
    else (if Space(s[0]) || s[0] == '=' || s[0] == '-' then [] else [Upper(s[0])]) + BrowserCleaned(s[1..])
  }

  function BrowserDecoded(s: string): Option<seq<nat>> {
    match Values(BrowserCleaned(s))
    case None => None
    case Some(values) => if Decoded(values) == [] then None else Some(Decoded(values))
  }

  method BrowserBase32Decode(input: string) returns (r: Option<seq<nat>>)
    ensures r == BrowserDecoded(input)
  {
    hide Spread, BitsOf, Pow, Values, Decoded, BrowserCleaned;
    var clean := BrowserCleaned(input);
    var out: seq<nat> := [];
    var buffer: nat, bits: nat := 0, 0;
    ghost var values: seq<nat> := [];
    var i := 0;
    NothingHeld([]);
    assert clean[..0] == [];
    while i < |clean|
      invariant 0 <= i <= |clean| && buffer < 0x1_0000
      invariant Values(clean[..i]) == Some(values) && Held(values, out, buffer, bits)
    {
      assert clean[..i + 1] == clean[..i] + [clean[i]];
      ValuesMore(clean[..i], clean[i]);
      var v := SymbolValue(clean[i]);
      if v.None? {
        assert clean == clean[..i + 1] + clean[i + 1..];
        ValuesFail(clean[..i + 1], clean[i + 1..]);
        return None;
      }
      TakeSymbol(values, out, buffer, bits, v.value);
      TwoToSixteen();
      BitsMasked(buffer * 32 + v.value, bits + 5, 16);
      values := values + [v.value];
      buffer, bits := (buffer * 32 + v.value) % 0x1_0000, bits + 5;
      if bits >= 8 {
        GiveByte(values, out, buffer, bits);
        BitsOfMod(buffer, bits - 8);
        bits := bits - 8;
        out := out + [buffer / Pow(2, bits) % 256];
      }
      i := i + 1;
    }
    assert clean[..i] == clean;
    HeldEnds(values, out, buffer, bits);
    r := if out == [] then None else Some(out);
  }

  lemma TwoToSixteen()
    ensures Pow(2, 16) == 0x1_0000
  {
    DigitSizes();
    PowAdd(2, 8, 8);
  }

  lemma {:induction false} SameCleaning(s: string)
    requires forall i :: 0 <= i < |s| ==> !Break(s[i])
    ensures Cleaned(s) == BrowserCleaned(s)
  {
    if s != [] {
      SameCleaning(s[1..]);
    }
  }

  lemma {:induction false} BreakFails(s: string, i: nat)
    requires i < |s| && Break(s[i])
    ensures Values(Cleaned(s)).None?
  {
    var head, tail := s[..i], s[i..];
    assert s == head + tail;
    CleanedConcat(head, tail);
    assert Cleaned(tail)[0] == s[i];
    ValuesFailAt(Cleaned(head), Cleaned(tail));
  }

  lemma {:induction false} ValuesFailAt(a: string, b: string)
    requires b != [] && SymbolValue(b[0]).None?
    ensures Values(a + b).None?
  {
    if a == [] {
      assert a + b == b;
    } else {
      ValuesFailAt(a[1..], b);
      assert (a + b)[1..] == a[1..] + b;
    }
  }

  lemma {:induction false} ValuesLength(s: string)
    ensures Values(s).Some? ==> |Values(s).value| == |s|
    ensures Values(s).Some? <==> forall i :: 0 <= i < |s| ==> SymbolValue(s[i]).Some?
  {
    if s != [] {
      ValuesLength(s[1..]);
      if Values(s).Some? {
        forall i | 0 <= i < |s| ensures SymbolValue(s[i]).Some? {
          assert i == 0 || s[i] == s[1..][i - 1];
        }
      }
      if forall i :: 0 <= i < |s| ==> SymbolValue(s[i]).Some? {
        forall i | 0 <= i < |s[1..]| ensures SymbolValue(s[1..][i]).Some? {
          assert s[1..][i] == s[i + 1];
        }
      }
    }
  }

  lemma DecodedEmpty(values: seq<nat>)
    ensures Decoded(values) == [] <==> |values| < 2
  {
  }

  /**
   On ASCII text the two decoders agree exactly when the text has a character
   neither accepts, or else has a line break or similar just when it has too few
   symbols for a byte.
   */
  lemma DecodersAgree(s: string)
    requires forall i :: 0 <= i < |s| ==> s[i] < '\U{0080}'
    ensures RustDecoded(s) == BrowserDecoded(s) <==>
            var clean := BrowserCleaned(s);
            || (exists i :: 0 <= i < |clean| && SymbolValue(clean[i]).None?)
            || ((exists i :: 0 <= i < |s| && Break(s[i])) <==> |clean| < 2)
  {
    hide Cleaned, BrowserCleaned, Values, Decoded;
    var clean := BrowserCleaned(s);
    ValuesLength(clean);
    if Values(clean).Some? {
      DecodedEmpty(Values(clean).value);
    }
    if i :| 0 <= i < |s| && Break(s[i]) {
      BreakFails(s, i);
    } else {
      SameCleaning(s);
    }
  }

  /** A line feed is an unknown symbol to one and white space to the other; only one accepts a text of no bytes. */
  lemma DecodersDiffer()
    ensures RustDecoded("AA\n").None? && BrowserDecoded("AA\n") == Some([0])
    ensures RustDecoded("A") == Some([]) && BrowserDecoded("A").None?
  {
    BreakFails("AA\n", 2);
    OneZeroByte();
    DecodedEmpty([0]);
    assert "AA\n"[1..] == "A\n" && "A\n"[1..] == "\n" && "\n"[1..] == "" && "AA"[1..] == "A" && "A"[1..] == "";
    hide Decoded, Break;
    assert BrowserCleaned("\n") == "" && BrowserCleaned("A\n") == "A" && BrowserCleaned("AA\n") == "AA";
    assert Cleaned("A") == "A" && BrowserCleaned("A") == "A";
    assert Values("A") == Some([0]) && Values("AA") == Some([0] + [0]);
  }

  lemma OneZeroByte()
    ensures Decoded([0] + [0]) == [0]
  {
    hide Spread, Gathered, Falses;
    DigitSizes();
    ZeroDigit(5);
    ZeroDigit(8);
    SpreadMore([0], 0, 5);
    ZeroBits(5);
    FalsesConcat(5, 5);
    FalsesConcat(8, 2);
    assert Fit([0], 8);
    GatherSpread([0], 8, Falses(2));
  }

  lemma ZeroDigit(w: nat)
    ensures Spread([0], w) == Falses(w)
  {
    hide Falses;
    ZeroBits(w);
    SpreadMore([], 0, w);
    assert [] + [0] == [0] && Spread([], w) == [] && [] + Falses(w) == Falses(w);
  }

  lemma SpreadStep(digits: seq<nat>, x: nat, n: nat, v: nat, w: nat, size: nat)
    requires Spread(digits, w) == BitsOf(x, n) && size == Pow(2, w) && v < size
    ensures Spread(digits + [v], w) == BitsOf(x * size + v, n + w)
  {
    hide Spread, BitsOf, Pow;
    SpreadMore(digits, v, w);
    BitsAppend(x, n, v, w);
  }

  lemma NoDigits(none: seq<nat>, w: nat)
    requires none == []
    ensures Spread(none, w) == BitsOf(0, 0)
  {
  }

  lemma OneFalse()
    ensures BitsOf(0, 1) == Falses(1)
  {
    assert BitsOf(0, 1) == BitsOf(0, 0) + [false];
  }

  lemma ThreeBytes(a: nat, b: nat, c: nat)
    requires a < 256 && b < 256 && c < 256
    ensures Spread([a, b, c], 8) == BitsOf((a * 256 + b) * 256 + c, 24)
  {
    hide Spread, BitsOf, Pow;
    DigitSizes();
    NoDigits([], 8);
    SpreadStep([], 0, 0, a, 8, 256);
    assert [] + [a] == [a];
    SpreadStep([a], a, 8, b, 8, 256);
    SpreadStep([a] + [b], a * 256 + b, 16, c, 8, 256);
    assert [a] + [b] + [c] == [a, b, c];
  }

  lemma FiveSymbols(a: nat, b: nat, c: nat, d: nat, e: nat)
    requires a < 32 && b < 32 && c < 32 && d < 32 && e < 32
    ensures Spread([a, b, c, d, e], 5) == BitsOf((((a * 32 + b) * 32 + c) * 32 + d) * 32 + e, 25)
  {
    hide Spread, BitsOf, Pow;
    DigitSizes();
    NoDigits([], 5);
    SpreadStep([], 0, 0, a, 5, 32);
    assert [] + [a] == [a];
    SpreadStep([a], a, 5, b, 5, 32);
    SpreadStep([a] + [b], a * 32 + b, 10, c, 5, 32);
    SpreadStep([a] + [b] + [c], (a * 32 + b) * 32 + c, 15, d, 5, 32);
    SpreadStep([a] + [b] + [c] + [d], ((a * 32 + b) * 32 + c) * 32 + d, 20, e, 5, 32);
    assert [a] + [b] + [c] + [d] + [e] == [a, b, c, d, e];
  }

  /** The bytes of "foo" and the symbols of "MZXW6" spell the same 25 bits, the last a fill. */
  lemma SameBits(foo: seq<nat>, symbols: seq<nat>, x: nat)
    requires foo == [102, 111, 111] && symbols == [12, 25, 23, 22, 30] && x == 6713199
    ensures Spread(symbols, 5) == Spread(foo, 8) + Falses(1)
  {
    hide Spread, BitsOf, Pow, Falses;
    ThreeBytes(102, 111, 111);
    FiveSymbols(12, 25, 23, 22, 30);
    TwoPowers();
    BitsAppend(x, 24, 0, 1);
    OneFalse();
  }

  lemma TwoPowers()
    ensures Pow(2, 1) == 2
  {
  }

  lemma SymbolsOfFoo(foo: seq<nat>, symbols: seq<nat>)
    requires foo == [102, 111, 111] && symbols == [12, 25, 23, 22, 30]
    ensures Encoded(foo) == symbols && Fit(symbols, 5) && Spelled(symbols) == "MZXW6"
  {
    hide Spread, BitsOf, Gathered;
    assert Pow(2, 5) == 32;
    SameBits(foo, symbols, 6713199);
    GatherSpread(symbols, 5, []);
    assert Spread(symbols, 5) + [] == Spread(symbols, 5);
    assert Padding(3) == 1;
  }

  /** The fourth example in section 10 of RFC 4648, with and without its fill. */
  lemma ExampleOfTheStandard(foo: seq<nat>)
    requires foo == [102, 111, 111]
    ensures Fit(Encoded(foo), 5) && Spelled(Encoded(foo)) == "MZXW6"
    ensures RustDecoded("MZXW6" + "===") == RustDecoded("MZXW6") == Some(foo)
  {
    hide Spread, BitsOf, Pow, Gathered, Falses, Symbol, Encoded, Decoded, SymbolValue, Values, Spelled;
    var symbols := [12, 25, 23, 22, 30];
    SymbolsOfFoo(foo, symbols);
    DecodeEncode(foo);
    SpelledValues(symbols);
    CleanSpelled(symbols);
    FillIsDropped("MZXW6");
  }

  lemma FillIsDropped(s: string)
    ensures Cleaned(s + "===") == Cleaned(s)
  {
    CleanedEach('=');
    assert Cleaned(s) + [] == Cleaned(s);
    CleanedConcat(s, "=");
    CleanedConcat(s + "=", "=");
    CleanedConcat(s + "=" + "=", "=");
    assert s + "=" + "=" + "=" == s + "===";
    hide Cleaned;
  }
}
