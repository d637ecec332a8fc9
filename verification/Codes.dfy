/** One-time codes after the HMAC, which is a parameter: the arithmetic of zvault-otp and of the share page. */
module Codes {
  // Section 5.3 of RFC 4226 and section 4.2 of RFC 6238.

  import opened Common
  import opened ModularPower
  import Decimal

  datatype Code = Code(code: string, period: nat, remaining: int)

  /** A byte of the digest, as a number. */
  function At(digest: seq<byte>, i: nat): (b: int)
    requires i < |digest|
    ensures 0 <= b < 256
  {
    digest[i]
  }

  function Offset(digest: seq<byte>): (o: nat)
    requires |digest| >= 20
    ensures o + 3 < |digest|
  {
    At(digest, |digest| - 1) % 16
  }

  /** Section 5.3 of RFC 4226: four bytes at the offset the last byte names, less the top bit. */
  function Truncated(digest: seq<byte>): nat
    requires |digest| >= 20
  {
    var offset := Offset(digest);
    (At(digest, offset) % 128) * 0x100_0000 + At(digest, offset + 1) * 0x1_0000 + At(digest, offset + 2) * 0x100
    + At(digest, offset + 3)
  }

  /** `u32::from_be_bytes` with the sign bit masked off. */
  function RustValue(digest: seq<byte>): nat
    requires |digest| >= 20
  {
    var offset := Offset(digest);
    var high := (At(digest, offset) * 256 + At(digest, offset + 1)) * 256 + At(digest, offset + 2);
    var word := high * 256 + At(digest, offset + 3);
    word % 0x8000_0000
  }

  /** A 32-bit signed integer with these bits, as JavaScript's operators give. */
  function ToInt32(x: int): int {
    var low := x % 0x1_0000_0000;
    if low >= 0x8000_0000 then low - 0x1_0000_0000 else low
  }

  /** The lowest w bits of x and y, joined bit by bit. */
  function OrBits(x: nat, y: nat, w: nat): nat {
    if w == 0 then 0
    else (if x % 2 == 1 || y % 2 == 1 then 1 else 0) + 2 * OrBits(x / 2, y / 2, w - 1)
  }

  /** JavaScript's `|`. */
  function Or(x: int, y: int): int {
    ToInt32(OrBits(x % 0x1_0000_0000, y % 0x1_0000_0000, 32))
  }

  /** The shifted bytes joined by `|` and made unsigned by `>>> 0`. */
  function BrowserValue(digest: seq<byte>): nat
    requires |digest| >= 20
  {
    var offset := Offset(digest);
    var joined := Or(Or(Or(
      ToInt32((At(digest, offset) % 128) * 0x100_0000),
      ToInt32(At(digest, offset + 1) * 0x1_0000)),
      ToInt32(At(digest, offset + 2) * 0x100)),
      At(digest, offset + 3));
    joined % 0x1_0000_0000
  }

  function Counter(unix: nat, period: nat): nat
    requires period > 0
  {
    unix / period
  }

  function RustCode(mac: nat -> seq<byte>, digits: nat, period: nat, unix: nat): Code
    requires period > 0 && |mac(Counter(unix, period))| >= 20
  {
    PowPositive(10, digits);
    var value := RustValue(mac(Counter(unix, period)));
    Code(Decimal.ZeroPadded(value % Pow(10, digits), digits), period, period - unix % period)
  }

  function BrowserCode(mac: nat -> seq<byte>, digits: nat, period: nat, unix: nat): Code
    requires period > 0 && |mac(Counter(unix, period))| >= 20
  {
    PowPositive(10, digits);
    var value := BrowserValue(mac(Counter(unix, period)));
    Code(Decimal.ZeroPadded(value % Pow(10, digits), digits), period, period - unix % period)
  }

  /** The signed number is in range and differs by a multiple of 2^32. */
  lemma ToInt32Meaning(x: int)
    ensures -0x8000_0000 <= ToInt32(x) < 0x8000_0000
    ensures (x - ToInt32(x)) % 0x1_0000_0000 == 0
  {
  }

  /** Bit i is set exactly when it is set in either number. */
  lemma {:induction false} OrIsBitwise(x: nat, y: nat, w: nat, i: nat)
    requires i < w
    ensures Pow(2, i) > 0
    ensures OrBits(x, y, w) / Pow(2, i) % 2 == 1 <==> x / Pow(2, i) % 2 == 1 || y / Pow(2, i) % 2 == 1
  {
    hide Pow, OrBits;
    OrLowest(x, y, w);
    PowPositive(2, i);
    if i > 0 {
      PowMore(i);
      PowPositive(2, i - 1);
      OrIsBitwise(x / 2, y / 2, w - 1, i - 1);
      OrOfHalves(OrBits(x, y, w), x, y, OrBits(x / 2, y / 2, w - 1), Pow(2, i - 1));
    } else {
      PowNone();
      OrOfLowest(OrBits(x, y, w), x, y, OrBits(x / 2, y / 2, w - 1));
    }
  }

  lemma OrOfHalves(z: nat, x: nat, y: nat, half: nat, p: nat)
    requires p > 0 && z == (if x % 2 == 1 || y % 2 == 1 then 1 else 0) + 2 * half
    requires half / p % 2 == 1 <==> x / 2 / p % 2 == 1 || y / 2 / p % 2 == 1
    ensures z / (2 * p) % 2 == 1 <==> x / (2 * p) % 2 == 1 || y / (2 * p) % 2 == 1
  {
    DivTwice(z, p);
    DivTwice(x, p);
    DivTwice(y, p);
    assert z / 2 == half;
  }

  lemma OrOfLowest(z: nat, x: nat, y: nat, half: nat)
    requires z == (if x % 2 == 1 || y % 2 == 1 then 1 else 0) + 2 * half
    ensures z / 1 % 2 == 1 <==> x / 1 % 2 == 1 || y / 1 % 2 == 1
  {
  }

  lemma OrLowest(x: nat, y: nat, w: nat)
    requires w > 0
    ensures OrBits(x, y, w) == (if x % 2 == 1 || y % 2 == 1 then 1 else 0) + 2 * OrBits(x / 2, y / 2, w - 1)
  {
  }

  /** The low four bits of the last byte say where the four bytes are; their top bit does not count. */
  lemma TruncatedMeaning(digest: seq<byte>, o: nat, high: nat, sign: nat, low: nat)
    requires |digest| >= 20 && o < 16 && high * 16 + o == digest[|digest| - 1]
    requires sign < 2 && low < 128 && digest[o] == sign * 128 + low
    ensures Truncated(digest)
         == ((low * 256 + digest[o + 1]) * 256 + digest[o + 2]) * 256 + digest[o + 3]
  {
    DivModUnique(digest[|digest| - 1], high, o, 16);
    DivModUnique(digest[o], sign, low, 128);
  }

  /** The worked example of section 5.4 of RFC 4226. */
  lemma ExampleOfTheStandard(digest: seq<byte>)
    requires digest == [0x1f, 0x86, 0x98, 0x69, 0x0e, 0x02, 0xca, 0x16, 0x61, 0x85, 0x50, 0xef, 0x7f, 0x19, 0xda, 0x8e,
                        0x94, 0x5b, 0x55, 0x5a]
    ensures Truncated(digest) == 0x50ef7f19 && Truncated(digest) % 1000000 == 872921
  {
    TruncatedMeaning(digest, 10, 5, 0, 0x50);
  }

  lemma {:induction false} OrNothing(x: nat, w: nat)
    requires x < Pow(2, w)
    ensures OrBits(x, 0, w) == x
  {
    if w > 0 {
      OrNothing(x / 2, w - 1);
    }
  }

  /** Joining a number with one that fits below its lowest bit adds the two. */
  lemma {:induction false} OrBelow(high: nat, k: nat, y: nat, w: nat)
    requires y < Pow(2, k) && k <= w && high * Pow(2, k) < Pow(2, w)
    ensures OrBits(high * Pow(2, k), y, w) == high * Pow(2, k) + y
  {
    if k == 0 {
      OrNothing(high, w);
    } else {
      var x := high * Pow(2, k - 1);
      assert high * Pow(2, k) == 2 * x;
      OrBelow(high, k - 1, y / 2, w - 1);
    }
  }

  lemma JoinByte(high: nat, k: nat, y: nat, size: nat)
    requires k <= 24 && size == Pow(2, k) && y < size && high * size + y < 0x8000_0000
    ensures Or(high * size, y) == high * size + y
  {
    hide Pow, OrBits, Or;
    ThirtyTwoBits();
    OrBelow(high, k, y, 32);
    SmallOr(high * size, y, high * size + y);
  }

  lemma SmallOr(x: nat, y: nat, joined: nat)
    requires x < 0x8000_0000 && y < 0x8000_0000 && OrBits(x, y, 32) == joined < 0x8000_0000
    ensures Or(x, y) == joined
  {
    hide OrBits;
  }

  lemma ThirtyTwoBits()
    ensures Pow(2, 8) == 0x100 && Pow(2, 16) == 0x1_0000 && Pow(2, 24) == 0x100_0000 && Pow(2, 32) == 0x1_0000_0000
  {
    assert Pow(2, 8) == 256;
    PowAdd(2, 8, 8);
    PowAdd(2, 16, 8);
    PowAdd(2, 24, 8);
  }

  lemma ValuesAreTruncation(digest: seq<byte>)
    requires |digest| >= 20
    ensures RustValue(digest) == Truncated(digest) == BrowserValue(digest)
  {
    hide At, Offset, ToInt32, Or, Pow;
    var o := Offset(digest);
    var a, b, c, d := At(digest, o), At(digest, o + 1), At(digest, o + 2), At(digest, o + 3);
    var low := b * 0x1_0000 + c * 0x100 + d;
    assert ((a * 256 + b) * 256 + c) * 256 + d == a * 0x100_0000 + low;
    TopBitMasked(a, low);
    Unsigned((a % 128) * 0x100_0000);
    Unsigned(b * 0x1_0000);
    Unsigned(c * 0x100);
    ThirtyTwoBits();
    var x := a % 128;
    JoinByte(x, 24, b * 0x1_0000, 0x100_0000);
    JoinByte(x * 256 + b, 16, c * 0x100, 0x1_0000);
    JoinByte((x * 256 + b) * 256 + c, 8, d, 0x100);
  }

  lemma Unsigned(x: int)
    requires 0 <= x < 0x8000_0000
    ensures ToInt32(x) == x
  {
  }

  lemma TopBitMasked(top: int, low: nat)
    requires 0 <= top < 256 && low < 0x100_0000
    ensures (top * 0x100_0000 + low) % 0x8000_0000 == (top % 128) * 0x100_0000 + low
  {
    assert top == top / 128 * 128 + top % 128;
    DivModUnique(top * 0x100_0000 + low, top / 128, (top % 128) * 0x100_0000 + low, 0x8000_0000);
  }

  /**
   For the same HMAC both sides show the same code: exactly `digits` digits that
   spell the truncated value modulo 10^digits, valid for one to `period` seconds more.
   */
  lemma CodesAgree(mac: nat -> seq<byte>, digits: nat, period: nat, unix: nat)
    requires digits > 0 && period > 0 && |mac(Counter(unix, period))| >= 20
    ensures var c := RustCode(mac, digits, period, unix);
            && c == BrowserCode(mac, digits, period, unix)
            && |c.code| == digits && Decimal.AllDigits(c.code)
            && Pow(10, digits) > 0
            && Decimal.Value(c.code) == Truncated(mac(Counter(unix, period))) % Pow(10, digits)
            && 1 <= c.remaining <= period
  {
    ValuesAreTruncation(mac(Counter(unix, period)));
    PowPositive(10, digits);
    Decimal.PaddedExact(Truncated(mac(Counter(unix, period))) % Pow(10, digits), digits);
  }

  /** In window k, j seconds in, the code is that of counter k, and is valid for what is left of the window. */
  lemma CodeOfWindow(mac: nat -> seq<byte>, digits: nat, period: nat, k: nat, j: nat, unix: nat)
    requires digits > 0 && unix == k * period + j && j < period && |mac(k)| >= 20
    ensures Counter(unix, period) == k
    ensures var c := RustCode(mac, digits, period, unix);
            && c == BrowserCode(mac, digits, period, unix)
            && |c.code| == digits && Decimal.AllDigits(c.code)
            && Pow(10, digits) > 0
            && Decimal.Value(c.code) == Truncated(mac(k)) % Pow(10, digits)
            && c.period == period && c.remaining == period - j
  {
    hide Truncated, Pow, Decimal.Value, Decimal.AllDigits, Decimal.ZeroPadded, RustValue, BrowserValue;
    DivModUnique(unix, k, j, period);
    CodesAgree(mac, digits, period, unix);
  }
}
