/**
 Numbers as strings of bits, most significant first, and cutting bit strings into digits.

 The base32 codecs shift symbols through a machine word and take digits off its
 end. Seen as bit strings, shifting and adding is concatenation, and taking a
 digit is cutting, so a buffer holds exactly the bits not yet written. What the
 word does with bits beyond those, truncate them or keep them, then plays no
 part.
 */
module Bits {
  import opened Common
  import opened ModularPower

  /** The low w bits of x. */
  function BitsOf(x: nat, w: nat): (bits: seq<bool>)
    ensures |bits| == w
  {
    if w == 0 then [] else BitsOf(x / 2, w - 1) + [x % 2 == 1]
  }

  function NumberOf(bits: seq<bool>): nat {
    if bits == [] then 0 else 2 * NumberOf(bits[..|bits| - 1]) + (if bits[|bits| - 1] then 1 else 0)
  }

  /** All the digits' bits, w for each digit. */
  function Spread(digits: seq<nat>, w: nat): (bits: seq<bool>)
    ensures |bits| == w * |digits|
  {
    if digits == [] then []
    else
      assert w * |digits| == w + w * |digits[1..]|;
      BitsOf(digits[0], w) + Spread(digits[1..], w)
  }

  /** Whole digits of w bits; bits left over at the end are dropped. */
  function Gathered(bits: seq<bool>, w: nat): seq<nat>
    requires w > 0
    decreases |bits|
  {
    if |bits| < w then [] else [NumberOf(bits[..w])] + Gathered(bits[w..], w)
  }

  function Falses(n: nat): (bits: seq<bool>)
    ensures |bits| == n
  {
    seq(n, _ => false)
  }

  lemma {:induction false} NumberOfBits(x: nat, w: nat)
    requires x < Pow(2, w)
    ensures NumberOf(BitsOf(x, w)) == x
  {
    if w > 0 {
      NumberOfBits(x / 2, w - 1);
      assert BitsOf(x, w)[..w - 1] == BitsOf(x / 2, w - 1);
    }
  }

  lemma {:induction false} BitsOfNumber(bits: seq<bool>)
    ensures NumberOf(bits) < Pow(2, |bits|) && BitsOf(NumberOf(bits), |bits|) == bits
  {
    if bits != [] {
      BitsOfNumber(bits[..|bits| - 1]);
    }
  }

  /** Writing y after x, in w bits, is shifting x and adding y. */
  lemma {:induction false} BitsAppend(x: nat, u: nat, y: nat, w: nat)
    requires y < Pow(2, w)
    ensures BitsOf(x * Pow(2, w) + y, u + w) == BitsOf(x, u) + BitsOf(y, w)
  {
    if w == 0 {
      assert BitsOf(x, u) + [] == BitsOf(x, u);
    } else {
      var half := Pow(2, w - 1);
      BitsAppend(x, u, y / 2, w - 1);
      assert x * Pow(2, w) + y == 2 * (x * half) + y;
      assert (x * Pow(2, w) + y) / 2 == x * half + y / 2;
      assert (x * Pow(2, w) + y) % 2 == y % 2;
      Associative(BitsOf(x, u), BitsOf(y / 2, w - 1), [y % 2 == 1]);
    }
  }

  /** The top bits of a number and the rest of it. */
  lemma BitsSplit(x: nat, u: nat, w: nat)
    ensures Pow(2, w) > 0
    ensures BitsOf(x, u + w) == BitsOf(x / Pow(2, w), u) + BitsOf(x % Pow(2, w), w)
  {
    hide Pow, BitsOf;
    PowPositive(2, w);
    BitsAppend(x / Pow(2, w), u, x % Pow(2, w), w);
  }

  lemma {:induction false} BitsOfMod(x: nat, w: nat)
    ensures Pow(2, w) > 0 && BitsOf(x % Pow(2, w), w) == BitsOf(x, w)
  {
    BitsSplit(x, 0, w);
    assert [] + BitsOf(x % Pow(2, w), w) == BitsOf(x % Pow(2, w), w);
  }

  lemma {:induction false} SpreadMore(digits: seq<nat>, d: nat, w: nat)
    ensures Spread(digits + [d], w) == Spread(digits, w) + BitsOf(d, w)
  {
    if digits == [] {
      assert [] + [d] == [d] && [d][1..] == [];
      assert BitsOf(d, w) + [] == BitsOf(d, w);
    } else {
      SpreadMore(digits[1..], d, w);
      assert (digits + [d])[1..] == digits[1..] + [d];
      Associative(BitsOf(digits[0], w), Spread(digits[1..], w), BitsOf(d, w));
    }
  }

  ghost predicate Fit(digits: seq<nat>, w: nat) {
    forall i :: 0 <= i < |digits| ==> digits[i] < Pow(2, w)
  }

  /** Cutting the digits' bits, with too few bits to make another digit after them, gives the digits. */
  lemma {:induction false} GatherSpread(digits: seq<nat>, w: nat, rest: seq<bool>)
    requires w > 0 && Fit(digits, w) && |rest| < w
    ensures Gathered(Spread(digits, w) + rest, w) == digits
  {
    hide Pow, NumberOf, BitsOf;
    if digits == [] {
      assert [] + rest == rest;
    } else {
      var first, later := BitsOf(digits[0], w), Spread(digits[1..], w);
      GatherSpread(digits[1..], w, rest);
      NumberOfBits(digits[0], w);
      Associative(first, later, rest);
      DropOfConcat(first, later + rest, w);
      assert first[w..] == [] && [] + (later + rest) == later + rest;
      assert (first + (later + rest))[..w] == first;
    }
  }

  /** Cutting bits whose number is a multiple of w loses none of them. */
  lemma {:induction false} SpreadGather(bits: seq<bool>, w: nat)
    requires w > 0 && |bits| % w == 0
    ensures Spread(Gathered(bits, w), w) == bits
    decreases |bits|
  {
    if |bits| >= w {
      assert |bits[w..]| % w == 0 by {
        ModAddMultiple(|bits| - w, 1, w);
      }
      SpreadGather(bits[w..], w);
      BitsOfNumber(bits[..w]);
      assert bits == bits[..w] + bits[w..];
    } else {
      DivModUnique(|bits|, 0, |bits|, w);
    }
  }

  /** The last bits of a number's bits. */
  lemma TailOfBits(x: nat, u: nat, w: nat)
    ensures BitsOf(x, u + w)[u..] == BitsOf(x, w)
  {
    hide BitsOf, Pow;
    BitsSplit(x, u, w);
    BitsOfMod(x, w);
    DropOfConcat(BitsOf(x / Pow(2, w), u), BitsOf(x, w), u);
    assert BitsOf(x / Pow(2, w), u)[u..] == [] && [] + BitsOf(x, w) == BitsOf(x, w);
  }

  /** Masking more bits than are looked at changes nothing. */
  lemma BitsMasked(x: nat, w: nat, k: nat)
    requires w <= k
    ensures Pow(2, k) > 0 && BitsOf(x % Pow(2, k), w) == BitsOf(x, w)
  {
    hide BitsOf, Pow;
    PowPositive(2, k);
    BitsOfMod(x, k);
    TailOfBits(x, k - w, w);
    TailOfBits(x % Pow(2, k), k - w, w);
  }
  lemma {:induction false} ZeroBits(w: nat)
    ensures BitsOf(0, w) == Falses(w)
  {
    if w > 0 {
      ZeroBits(w - 1);
      assert Falses(w - 1) + [false] == Falses(w);
    }
  }

  lemma FalsesConcat(m: nat, n: nat)
    ensures Falses(m) + Falses(n) == Falses(m + n)
  {
  }
}
