/**
 Literal strings of PDF content (section 7.3.4.2 of ISO 32000-1): how the kit
 writes them and how it reads every one back out of a file.
 */
module PdfText {
  import opened Common

  const OPEN: byte := 40
  const CLOSE: byte := 41
  const BACKSLASH: byte := 92

  // ---------------------------------------------------------------- writing

  predicate Special(b: byte) {
    b == OPEN || b == CLOSE || b == BACKSLASH
  }

  function OctalDigit(d: nat): byte
    requires d < 8
  {
    d + 48
  }

  /** One byte of a literal string: itself, escaped, or three octal digits. */
  function EscapedByte(b: byte): seq<byte> {
    if Special(b) then [BACKSLASH, b]
    else if 32 <= b <= 126 then [b]
    else [BACKSLASH, OctalDigit(b / 64), OctalDigit(b / 8 % 8), OctalDigit(b % 8)]
  }

  function Escaped(s: seq<byte>): seq<byte> {
    if s == [] then [] else EscapedByte(s[0]) + Escaped(s[1..])
  }

  method EscapeInto(out: seq<byte>, s: seq<byte>) returns (r: seq<byte>)
    ensures r == out + Escaped(s)
  {
    r := out;
    var i := 0;
    assert s[0..] == s;
    while i < |s|
      invariant 0 <= i <= |s|
      invariant r + Escaped(s[i..]) == out + Escaped(s)
    {
      var b := s[i];
      DropOfDrop(s, i, 1);
      Associative(r, EscapedByte(b), Escaped(s[i + 1..]));
      if b == OPEN || b == CLOSE || b == BACKSLASH {
        r := r + [BACKSLASH, b];
      } else if 32 <= b <= 126 {
        r := r + [b];
      } else {
        r := r + [BACKSLASH, OctalDigit(b / 64), OctalDigit(b / 8 % 8), OctalDigit(b % 8)];
      }
      i := i + 1;
    }
    assert r + [] == r;
  }

  // ---------------------------------------------------------------- reading

  predicate Octal(b: byte) {
    48 <= b <= 55
  }

  /** How many octal digits, at most three, some bytes start with. */
  function OctalCount(b: seq<byte>): (n: nat)
    ensures n <= 3 && n <= |b|
    ensures forall i :: 0 <= i < n ==> Octal(b[i])
  {
    if |b| < 1 || !Octal(b[0]) then 0
    else if |b| < 2 || !Octal(b[1]) then 1
    else if |b| < 3 || !Octal(b[2]) then 2
    else 3
  }

  function OctalValue(digits: seq<byte>): nat
    requires forall i :: 0 <= i < |digits| ==> Octal(digits[i])
  {
    if digits == [] then 0
    else
      assert Octal(digits[|digits| - 1]);
      OctalValue(digits[..|digits| - 1]) * 8 + (digits[|digits| - 1] as int - 48)
  }

  /** One turn of the reading loop: the string ends, or a byte is kept and some bytes are used up. */
  datatype Turn = Stop(used: nat) | Keep(b: byte, used: nat, depth: nat)

  /** A turn inside a string whose opening parentheses are `depth` deep. */
  function TurnOf(b: seq<byte>, depth: nat): (t: Turn)
    requires b != [] && depth > 0
    ensures 1 <= t.used <= |b| && (t.Keep? ==> t.depth > 0)
  {
    if b[0] == BACKSLASH then
      if |b| == 1 then Stop(1)
      else
        var n := OctalCount(b[1..]);
        if n > 0 then Keep(OctalValue(b[1..1 + n]) % 256, 1 + n, depth) else Keep(b[1], 2, depth)
    else if b[0] == OPEN then Keep(b[0], 1, depth + 1)
    else if b[0] == CLOSE then if depth == 1 then Stop(1) else Keep(b[0], 1, depth - 1)
    else Keep(b[0], 1, depth)
  }

  /** The rest of a string, and what follows it. */
  function StringBody(b: seq<byte>, depth: nat): (r: (seq<byte>, seq<byte>))
    requires depth > 0
    ensures |r.1| <= |b|
    decreases |b|
  {
    if b == [] then ([], [])
    else match TurnOf(b, depth)
      case Stop(used) => ([], b[used..])
      case Keep(x, used, deeper) =>
        var (s, rest) := StringBody(b[used..], deeper);
        ([x] + s, rest)
  }

  /** Every literal string in some bytes, unescaped. */
  function LiteralStrings(pdf: seq<byte>): seq<seq<byte>>
    decreases |pdf|
  {
    if pdf == [] then []
    else if pdf[0] != OPEN then LiteralStrings(pdf[1..])
    else
      var (s, rest) := StringBody(pdf[1..], 1);
      [s] + LiteralStrings(rest)
  }

  /** `s` is read; reading on from `rest` gives what is missing from the goal. */
  ghost predicate BodyReaches(s: seq<byte>, rest: seq<byte>, depth: nat, goal: (seq<byte>, seq<byte>))
    requires depth > 0
  {
    goal == (s + StringBody(rest, depth).0, StringBody(rest, depth).1)
  }

  lemma BodyStarts(b: seq<byte>)
    ensures BodyReaches([], b, 1, StringBody(b, 1))
  {
    assert [] + StringBody(b, 1).0 == StringBody(b, 1).0;
  }

  lemma BodyTurns(s: seq<byte>, rest: seq<byte>, depth: nat, goal: (seq<byte>, seq<byte>))
    requires depth > 0 && BodyReaches(s, rest, depth, goal)
    ensures if rest == [] then goal == (s, [])
            else match TurnOf(rest, depth)
              case Stop(used) => goal == (s, rest[used..])
              case Keep(x, used, deeper) => BodyReaches(s + [x], rest[used..], deeper, goal)
  {
    hide TurnOf;
    assert s + [] == s;
    if rest != [] && TurnOf(rest, depth).Keep? {
      var t := TurnOf(rest, depth);
      Associative(s, [t.b], StringBody(rest[t.used..], t.depth).0);
    }
  }

  lemma TurnAt(pdf: seq<byte>, i: nat, depth: nat)
    requires i < |pdf| && depth > 0
    ensures TurnOf(pdf[i..], depth) ==
            if pdf[i] == BACKSLASH then
              if i + 1 == |pdf| then Stop(1)
              else
                var n := OctalCount(pdf[i + 1..]);
                if n > 0 then Keep(OctalValue(pdf[i + 1..i + 1 + n]) % 256, 1 + n, depth)
                else Keep(pdf[i + 1], 2, depth)
            else if pdf[i] == OPEN then Keep(pdf[i], 1, depth + 1)
            else if pdf[i] == CLOSE then if depth == 1 then Stop(1) else Keep(pdf[i], 1, depth - 1)
            else Keep(pdf[i], 1, depth)
  {
    hide OctalValue, OctalCount;
    DropOfDrop(pdf, i, 1);
    if i + 1 < |pdf| {
      var n := OctalCount(pdf[i + 1..]);
      assert pdf[i..][1..1 + n] == pdf[i + 1..i + 1 + n];
    }
  }

  /** Reads one string: its body from `start`, and the position after it. */
  method ReadBody(pdf: seq<byte>, start: nat) returns (s: seq<byte>, i: nat)
    requires start <= |pdf|
    ensures start <= i <= |pdf|
    ensures (s, pdf[i..]) == StringBody(pdf[start..], 1)
  {
    hide OctalValue, OctalCount, StringBody, BodyReaches, TurnOf;
    s, i := [], start;
    var depth: nat := 1;
    ghost var goal := StringBody(pdf[start..], 1);
    BodyStarts(pdf[start..]);
    while i < |pdf|
      invariant start <= i <= |pdf| && depth > 0
      invariant BodyReaches(s, pdf[i..], depth, goal)
      decreases |pdf| - i
    {
      BodyTurns(s, pdf[i..], depth, goal);
      TurnAt(pdf, i, depth);
      ghost var used := TurnOf(pdf[i..], depth).used;
      DropOfDrop(pdf, i, used);
      var b := pdf[i];
      i := i + 1;
      if b == BACKSLASH {
        if i == |pdf| {
          return;
        }
        var digits := OctalCount(pdf[i..]);
        if digits > 0 {
          s := s + [OctalValue(pdf[i..i + digits]) % 256];
          i := i + digits;
        } else {
          s := s + [pdf[i]];
          i := i + 1;
        }
      } else if b == OPEN {
        depth := depth + 1;
        s := s + [b];
      } else if b == CLOSE {
        depth := depth - 1;
        if depth == 0 {
          return;
        }
        s := s + [b];
      } else {
        s := s + [b];
      }
    }
    BodyTurns(s, pdf[i..], depth, goal);
  }

  /** The scanning loop finds every literal string. */
  method ReadStrings(pdf: seq<byte>) returns (out: seq<seq<byte>>)
    ensures out == LiteralStrings(pdf)
  {
    hide LiteralStrings, StringBody;
    out := [];
    var i: nat := 0;
    assert pdf[0..] == pdf && [] + LiteralStrings(pdf) == LiteralStrings(pdf);
    while i < |pdf|
      invariant i <= |pdf|
      invariant LiteralStrings(pdf) == out + LiteralStrings(pdf[i..])
      decreases |pdf| - i
    {
      NextString(pdf, i);
      if pdf[i] != OPEN {
        i := i + 1;
        continue;
      }
      var s;
      ghost var before := out;
      s, i := ReadBody(pdf, i + 1);
      Associative(before, [s], LiteralStrings(pdf[i..]));
      out := out + [s];
    }
    NextString(pdf, i);
    assert out + [] == out;
  }

  lemma NextString(pdf: seq<byte>, i: nat)
    requires i <= |pdf|
    ensures LiteralStrings(pdf[i..]) ==
            if i == |pdf| then []
            else if pdf[i] != OPEN then LiteralStrings(pdf[i + 1..])
            else [StringBody(pdf[i + 1..], 1).0] + LiteralStrings(StringBody(pdf[i + 1..], 1).1)
  {
    hide StringBody;
    if i < |pdf| {
      DropOfDrop(pdf, i, 1);
    }
  }

  // ---------------------------------------------------------------- reading undoes writing

  /** Bytes that neither open a string nor matter inside one. */
  predicate Clean(b: seq<byte>) {
    forall i :: 0 <= i < |b| ==> !Special(b[i])
  }

  type CleanText = b: seq<byte> | Clean(b)

  lemma {:induction false} CleanHoldsNone(clean: seq<byte>, rest: seq<byte>)
    requires Clean(clean)
    ensures LiteralStrings(clean + rest) == LiteralStrings(rest)
  {
    if clean == [] {
      assert [] + rest == rest;
    } else {
      CleanHoldsNone(clean[1..], rest);
      DropOfConcat(clean, rest, 1);
      assert (clean + rest)[0] == clean[0];
    }
  }

  lemma OctalOfByte(b: byte)
    ensures var digits := [OctalDigit(b / 64), OctalDigit(b / 8 % 8), OctalDigit(b % 8)];
            Octal(digits[0]) && Octal(digits[1]) && Octal(digits[2]) && OctalValue(digits) == b
  {
    OctalParts(b);
    var x, y, z := OctalDigit(b / 64), OctalDigit(b / 8 % 8), OctalDigit(b % 8);
    assert [x, y, z][..2] == [x, y] && [x, y][..1] == [x] && [x][..0] == [];
    assert OctalValue([x]) == b / 64;
    assert OctalValue([x, y]) == b / 64 * 8 + b / 8 % 8;
  }

  lemma OctalParts(b: byte)
    ensures b == (b / 64 * 8 + b / 8 % 8) * 8 + b % 8
  {
  }

  lemma TurnOnEscaped(b: byte, more: seq<byte>)
    ensures TurnOf(EscapedByte(b) + more, 1) == Keep(b, |EscapedByte(b)|, 1)
  {
    hide OctalValue;
    if !Special(b) && !(32 <= b <= 126) {
      var digits := [OctalDigit(b / 64), OctalDigit(b / 8 % 8), OctalDigit(b % 8)];
      OctalOfByte(b);
      assert EscapedByte(b) + more == [BACKSLASH] + (digits + more);
      assert ([BACKSLASH] + (digits + more))[1..] == digits + more;
      assert (EscapedByte(b) + more)[1..4] == digits;
    }
  }

  lemma BodyEnds(rest: seq<byte>)
    ensures StringBody([CLOSE] + rest, 1) == ([], rest)
  {
    assert ([CLOSE] + rest)[1..] == rest;
  }

  /** An escaped string, closed, reads back as itself. */
  lemma {:induction false} BodyOfEscaped(s: seq<byte>, rest: seq<byte>)
    ensures StringBody(Escaped(s) + [CLOSE] + rest, 1) == (s, rest)
  {
    hide TurnOf, EscapedByte;
    if s == [] {
      BodyEnds(rest);
      assert [] + [CLOSE] + rest == [CLOSE] + rest;
    } else {
      var e, more := EscapedByte(s[0]), Escaped(s[1..]) + [CLOSE] + rest;
      BodyOfEscaped(s[1..], rest);
      Associative(e, Escaped(s[1..]), [CLOSE]);
      Associative(e, Escaped(s[1..]) + [CLOSE], rest);
      TurnOnEscaped(s[0], more);
      DropOfConcat(e, more, |e|);
      assert e[|e|..] == [] && [] + more == more && [s[0]] + s[1..] == s;
    }
  }

  /** For every byte string: written in parentheses it is found, as it was, before what follows. */
  lemma StringIsFound(s: seq<byte>, rest: seq<byte>)
    ensures LiteralStrings([OPEN] + Escaped(s) + [CLOSE] + rest) == [s] + LiteralStrings(rest)
  {
    hide Escaped, StringBody, LiteralStrings;
    var body := Escaped(s) + [CLOSE] + rest;
    BodyOfEscaped(s, rest);
    Associative([OPEN], Escaped(s), [CLOSE]);
    Associative([OPEN], Escaped(s) + [CLOSE], rest);
    NextOpened(body);
  }

  lemma NextOpened(body: seq<byte>)
    ensures LiteralStrings([OPEN] + body) == [StringBody(body, 1).0] + LiteralStrings(StringBody(body, 1).1)
  {
    hide StringBody;
    assert ([OPEN] + body)[1..] == body;
  }

  // ---------------------------------------------------------------- pieces of a file

  /** Reading some bytes finds these strings and then whatever what follows holds. */
  ghost predicate Holds(b: seq<byte>, texts: seq<seq<byte>>) {
    forall rest :: LiteralStrings(b + rest) == texts + LiteralStrings(rest)
  }

  lemma CleanHolds(clean: seq<byte>)
    requires Clean(clean)
    ensures Holds(clean, [])
  {
    hide LiteralStrings, Clean;
    forall rest ensures LiteralStrings(clean + rest) == [] + LiteralStrings(rest) {
      CleanHoldsNone(clean, rest);
      assert [] + LiteralStrings(rest) == LiteralStrings(rest);
    }
  }

  lemma StringHolds(s: seq<byte>)
    ensures Holds([OPEN] + Escaped(s) + [CLOSE], [s])
  {
    hide LiteralStrings, Escaped;
    forall rest ensures LiteralStrings([OPEN] + Escaped(s) + [CLOSE] + rest) == [s] + LiteralStrings(rest) {
      StringIsFound(s, rest);
    }
  }

  lemma HoldsConcat(a: seq<byte>, s: seq<seq<byte>>, b: seq<byte>, t: seq<seq<byte>>)
    requires Holds(a, s) && Holds(b, t)
    ensures Holds(a + b, s + t)
  {
    hide LiteralStrings;
    forall rest ensures LiteralStrings(a + b + rest) == s + t + LiteralStrings(rest) {
      Associative(a, b, rest);
      Associative(s, t, LiteralStrings(rest));
      assert LiteralStrings(a + (b + rest)) == s + LiteralStrings(b + rest);
      assert LiteralStrings(b + rest) == t + LiteralStrings(rest);
    }
  }

  /** A file that is such a piece holds exactly those strings. */
  lemma HoldsExactly(b: seq<byte>, texts: seq<seq<byte>>)
    requires Holds(b, texts)
    ensures LiteralStrings(b) == texts
  {
    assert LiteralStrings(b + []) == texts + LiteralStrings([]);
    assert b + [] == b && texts + [] == texts && LiteralStrings([]) == [];
  }

  /** A byte that stands for itself. */
  predicate Plain(b: byte) {
    32 <= b <= 126 && !Special(b)
  }

  lemma {:induction false} PlainIsUnescaped(s: seq<byte>)
    requires forall i :: 0 <= i < |s| ==> Plain(s[i])
    ensures Escaped(s) == s
  {
    if s != [] {
      assert Plain(s[0]);
      PlainIsUnescaped(s[1..]);
    }
  }

  // ---------------------------------------------------------------- what is written and read, byte by byte

  /** Parentheses and backslashes get a backslash, other visible ASCII and spaces stay, the rest is in octal. */
  lemma EscapedByteMeaning(b: byte)
    ensures b as char in {'(', ')', '\\'} ==> EscapedByte(b) == ['\\' as int, b]
    ensures b as char !in {'(', ')', '\\'} && ' ' <= b as char <= '~' ==> EscapedByte(b) == [b]
    ensures !(' ' <= b as char <= '~') ==>
              var e := EscapedByte(b);
              && |e| == 4 && e[0] == '\\' as int
              && (forall i :: 1 <= i < 4 ==> '0' <= e[i] as char <= '7')
              && b == (e[1] as int - 48) * 64 + (e[2] as int - 48) * 8 + (e[3] as int - 48)
  {
    OctalParts(b);
  }

  /** Put before the rest of a string, which is some levels deep. */
  function Preceded(b: byte, rest: seq<byte>, depth: nat): (seq<byte>, seq<byte>)
    requires depth > 0
  {
    ([b] + StringBody(rest, depth).0, StringBody(rest, depth).1)
  }

  /** Inside a string, parentheses nest, the one that closes it ends it, and other bytes stand for themselves. */
  lemma BodyMeaning(b: byte, rest: seq<byte>, depth: nat)
    requires depth > 0
    ensures StringBody([], depth) == ([], [])
    ensures b as char !in {'(', ')', '\\'} ==> StringBody([b] + rest, depth) == Preceded(b, rest, depth)
    ensures StringBody(['(' as int] + rest, depth) == Preceded('(' as int, rest, depth + 1)
    ensures StringBody([')' as int] + rest, 1) == ([], rest)
    ensures depth > 1 ==> StringBody([')' as int] + rest, depth) == Preceded(')' as int, rest, depth - 1)
  {
    assert ([b] + rest)[1..] == ([OPEN] + rest)[1..] == ([CLOSE] + rest)[1..] == rest;
    assert TurnOf([OPEN] + rest, depth) == Keep(OPEN, 1, depth + 1);
    assert TurnOf([CLOSE] + rest, depth) == if depth == 1 then Stop(1) else Keep(CLOSE, 1, depth - 1);
    assert TurnOf([CLOSE] + rest, 1) == Stop(1);
    assert !Special(b) ==> TurnOf([b] + rest, depth) == Keep(b, 1, depth);
    hide TurnOf;
  }

  /** A backslash takes the next byte as it is, unless that is an octal digit. */
  lemma BackslashMeaning(b: byte, rest: seq<byte>, depth: nat)
    requires depth > 0
    ensures StringBody(['\\' as int], depth) == ([], [])
    ensures !('0' <= b as char <= '7') ==> StringBody(['\\' as int, b] + rest, depth) == Preceded(b, rest, depth)
  {
    var s := [BACKSLASH, b] + rest;
    assert s[1..] == [b] + rest && s[2..] == rest;
    assert [BACKSLASH][1..] == [];
    assert TurnOf([BACKSLASH], depth) == Stop(1);
    assert !Octal(b) ==> OctalCount(s[1..]) == 0 && TurnOf(s, depth) == Keep(b, 2, depth);
    hide TurnOf;
  }

  /** Up to three octal digits after a backslash are one byte, its value cut to eight bits. */
  lemma OctalMeaning(digits: seq<byte>, value: nat, rest: seq<byte>, depth: nat)
    requires depth > 0 && 1 <= |digits| <= 3
    requires forall i :: 0 <= i < |digits| ==> '0' <= digits[i] as char <= '7'
    requires |digits| < 3 && rest != [] ==> !('0' <= rest[0] as char <= '7')
    requires value == (if |digits| == 1 then digits[0] as int - 48
                       else if |digits| == 2 then (digits[0] as int - 48) * 8 + (digits[1] as int - 48)
                       else ((digits[0] as int - 48) * 8 + (digits[1] as int - 48)) * 8 + (digits[2] as int - 48))
    ensures StringBody(['\\' as int] + digits + rest, depth) == Preceded(value % 256, rest, depth)
  {
    var n := |digits|;
    var s := [BACKSLASH] + digits + rest;
    assert s[1..] == digits + rest && s[1..1 + n] == digits && s[1 + n..] == rest;
    OctalValueIs(digits, value);
    OctalCountIs(digits, rest);
    assert TurnOf(s, depth) == Keep(value % 256, 1 + n, depth) by {
      hide OctalValue, OctalCount;
    }
    hide TurnOf, OctalValue, OctalCount;
  }

  lemma OctalCountIs(digits: seq<byte>, rest: seq<byte>)
    requires 1 <= |digits| <= 3
    requires forall i :: 0 <= i < |digits| ==> Octal(digits[i])
    requires |digits| < 3 && rest != [] ==> !Octal(rest[0])
    ensures OctalCount(digits + rest) == |digits|
  {
    var s, n := digits + rest, |digits|;
    assert forall i :: 0 <= i < n ==> s[i] == digits[i];
    assert n < |s| ==> s[n] == rest[0];
  }

  lemma OctalValueIs(digits: seq<byte>, value: nat)
    requires 1 <= |digits| <= 3
    requires forall i :: 0 <= i < |digits| ==> Octal(digits[i])
    requires value == (if |digits| == 1 then digits[0] as int - 48
                       else if |digits| == 2 then (digits[0] as int - 48) * 8 + (digits[1] as int - 48)
                       else ((digits[0] as int - 48) * 8 + (digits[1] as int - 48)) * 8 + (digits[2] as int - 48))
    ensures OctalValue(digits) == value
  {
    assert digits[..1][..0] == [] && OctalValue([]) == 0;
    assert OctalValue(digits[..1]) == digits[0] as int - 48;
    if |digits| == 1 {
      assert digits[..1] == digits;
    } else {
      assert digits[..2][..1] == digits[..1];
      assert OctalValue(digits[..2]) == (digits[0] as int - 48) * 8 + (digits[1] as int - 48);
      if |digits| == 2 {
        assert digits[..2] == digits;
      }
    }
  }
}
