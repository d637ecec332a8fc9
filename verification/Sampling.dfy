/** Rejection sampling: the 64-bit sampler of zvault-passwords and the byte sampler of zvault-agent. */
module Sampling {
  // The generator's output is an input stream.

  import opened Common
  import opened ModularPower

  const U64_MAX: nat := 0xFFFF_FFFF_FFFF_FFFF
  const U64_VALUES: nat := 0x1_0000_0000_0000_0000

  type u64 = x: nat | x <= U64_MAX

  // ---------------------------------------------------------------- counting residues

  /** The values below `bound` that leave remainder r. */
  function Preimages(bound: nat, n: nat, r: nat): set<nat>
    requires n > 0
  {
    set x: nat | x < bound && x % n == r
  }

  lemma {:induction false} EqualShares(q: nat, n: nat, r: nat)
    requires r < n
    ensures |Preimages(q * n, n, r)| == q
  {
    if q == 0 {
      assert Preimages(0, n, r) == {};
    } else {
      var low, x := (q - 1) * n, (q - 1) * n + r;
      EqualShares(q - 1, n, r);
      assert q * n == low + n;
      DivModUnique(x, q - 1, r, n);
      forall y: nat | low <= y < low + n && y % n == r
        ensures y == x
      {
        DivModUnique(y, q - 1, y - low, n);
      }
      assert Preimages(q * n, n, r) == Preimages(low, n, r) + {x};
    }
  }

  /** Of `total` equally likely values, cutting the last partial block leaves every residue equally likely. */
  lemma CutIsFair(total: nat, n: nat, r: nat)
    requires 0 < n && r < n
    ensures |Preimages(total - total % n, n, r)| == total / n
  {
    assert total - total % n == (total / n) * n;
    EqualShares(total / n, n, r);
  }

  // ---------------------------------------------------------------- 64-bit draws

  function Remainder(n: u64): u64
    requires n > 0
  {
    (U64_MAX % n + 1) % n
  }

  function Limit(n: u64): u64
    requires n > 0
  {
    U64_MAX - Remainder(n)
  }

  /** The overflow-free expression is 2^64 mod n. */
  lemma RemainderIsExact(n: u64)
    requires n > 0
    ensures Remainder(n) == U64_VALUES % n
  {
    var q, m := U64_MAX / n, U64_MAX % n;
    assert U64_VALUES == q * n + (m + 1);
    ModAddMultiple(m + 1, q, n);
  }

  /** Accepted draws are equally shared among the residues, and outnumber the rejected ones. */
  lemma BelowIsUniform(n: u64, r: nat)
    requires r < n
    ensures |Preimages(Limit(n) + 1, n, r)| == U64_VALUES / n
    ensures U64_VALUES - (Limit(n) + 1) < Limit(n) + 1
  {
    RemainderIsExact(n);
    CutIsFair(U64_VALUES, n, r);
    var q := U64_VALUES / n;
    assert U64_VALUES == q * n + U64_VALUES % n;
    assert q >= 1 && q * n >= n;
  }

  /** The first accepted draw, reduced. */
  function FirstBelow(n: u64, draws: seq<u64>): Option<u64>
    requires n > 0
  {
    if draws == [] then None
    else if draws[0] <= Limit(n) then Some(draws[0] % n)
    else FirstBelow(n, draws[1..])
  }

  /** Draw number k is the first below the largest multiple of n that 64 bits hold. */
  ghost predicate FirstFit(n: u64, draws: seq<u64>, k: nat)
    requires n > 0
  {
    && k < |draws| && draws[k] < U64_VALUES - U64_VALUES % n
    && forall j :: 0 <= j < k ==> draws[j] >= U64_VALUES - U64_VALUES % n
  }

  /** The answer is the first draw that fits, reduced; there is none when no draw fits. */
  lemma {:induction false} FirstBelowIs(n: u64, draws: seq<u64>)
    requires n > 0
    ensures forall k: nat :: FirstFit(n, draws, k) ==> FirstBelow(n, draws) == Some(draws[k] % n)
    ensures FirstBelow(n, draws) == None <==> forall j :: 0 <= j < |draws| ==> draws[j] >= U64_VALUES - U64_VALUES % n
  {
    hide Limit;
    LimitIsCut(n);
    if draws != [] {
      var rest := draws[1..];
      FirstBelowIs(n, rest);
      assert draws == [draws[0]] + rest;
      forall k: nat | FirstFit(n, draws, k) && k > 0 ensures FirstFit(n, rest, k - 1) && draws[k] == rest[k - 1] {
        forall j | 0 <= j < k - 1 ensures rest[j] >= U64_VALUES - U64_VALUES % n {
          assert rest[j] == draws[j + 1];
        }
      }
    }
  }

  /** The limit is the last value below the largest multiple of n that 64 bits hold. */
  lemma LimitIsCut(n: u64)
    requires n > 0
    ensures Limit(n) + 1 == U64_VALUES - U64_VALUES % n
  {
    hide Remainder;
    RemainderIsExact(n);
  }

  lemma OneDraw(n: u64, x: u64)
    requires n > 0
    ensures FirstBelow(n, [x]) == if x <= Limit(n) then Some(x % n) else None
  {
    hide Limit;
    assert [x][1..] == [];
  }

  /** The 64-bit values that, drawn once, are answered with r. */
  ghost function Answered(n: u64, r: nat): set<nat>
    requires n > 0
  {
    set x: nat | x < U64_VALUES && FirstBelow(n, [x]) == Some(r)
  }

  /** Every answer below n comes from equally many values. */
  lemma AnswersAreUniform(n: u64, r: nat)
    requires r < n
    ensures |Answered(n, r)| == U64_VALUES / n
  {
    hide Limit, FirstBelow;
    BelowIsUniform(n, r);
    forall x: nat ensures x in Answered(n, r) <==> x in Preimages(Limit(n) + 1, n, r) {
      if x < U64_VALUES {
        OneDraw(n, x);
      }
    }
    assert Answered(n, r) == Preimages(Limit(n) + 1, n, r);
  }

  method Below(n: u64, draws: seq<u64>) returns (r: Option<u64>)
    requires n > 0
    ensures r == FirstBelow(n, draws)
    ensures forall k: nat :: FirstFit(n, draws, k) ==> r == Some(draws[k] % n)
    ensures r == None <==> forall j :: 0 <= j < |draws| ==> draws[j] >= U64_VALUES - U64_VALUES % n
    ensures r.Some? ==> r.value < n
  {
    hide FirstFit;
    FirstBelowIs(n, draws);
    var rem := (U64_MAX % n + 1) % n;
    var limit := U64_MAX - rem;
    var next := 0;
    assert draws[0..] == draws;
    while next < |draws|
      invariant next <= |draws|
      invariant FirstBelow(n, draws) == FirstBelow(n, draws[next..])
    {
      var x := draws[next];
      if x <= limit {
        return Some(x % n);
      }
      DropOfDrop(draws, next, 1);
      next := next + 1;
    }
    return None;
  }

  // ---------------------------------------------------------------- byte draws

  const MIN_GENERATED: nat := 12
  const MAX_GENERATED: nat := 256
  const BUFFER: nat := 64

  function Clamped(len: nat): nat {
    if len < MIN_GENERATED then MIN_GENERATED else if len > MAX_GENERATED then MAX_GENERATED else len
  }

  function ByteLimit(n: nat): nat
    requires 0 < n
  {
    256 - 256 % n
  }

  lemma BytesAreUniform(n: nat, r: nat)
    requires r < n
    ensures |Preimages(ByteLimit(n), n, r)| == 256 / n
  {
    CutIsFair(256, n, r);
  }

  /** The character an accepted draw stands for; a rejected one stands for none. */
  function CharOf(chars: string, draw: byte): string
    requires chars != []
  {
    if draw < ByteLimit(|chars|) then [chars[draw % |chars|]] else []
  }

  /** Which draws stand for the character with a number, and that the others stand for none. */
  lemma CharOfMeaning(chars: string, draw: byte, k: nat)
    requires 0 < |chars| <= 256 && k < |chars|
    ensures draw >= 256 - 256 % |chars| ==> CharOf(chars, draw) == []
    ensures forall j: nat :: draw == j * |chars| + k && (j + 1) * |chars| <= 256 ==> CharOf(chars, draw) == [chars[k]]
  {
    forall j: nat | draw == j * |chars| + k && (j + 1) * |chars| <= 256
      ensures CharOf(chars, draw) == [chars[k]]
    {
      DivModUnique(draw, j, k, |chars|);
      WholeBlocks(j + 1, |chars|);
    }
  }

  /** The whole blocks of n values below 256 all lie below the limit. */
  lemma WholeBlocks(blocks: nat, n: nat)
    requires n > 0 && blocks * n <= 256
    ensures blocks * n <= ByteLimit(n)
  {
    var q := 256 / n;
    assert ByteLimit(n) == q * n;
    if blocks > q {
      OneBlockMore(q, blocks - q - 1, n);
    }
  }

  lemma OneBlockMore(q: nat, extra: nat, n: nat)
    ensures (q + 1 + extra) * n >= q * n + n
  {
    assert extra * n >= 0;
  }

  /** The characters of the accepted draws of a stream, in order. */
  function AcceptedChars(chars: string, draws: seq<byte>): string
    requires chars != []
  {
    if draws == [] then []
    else CharOf(chars, draws[0]) + AcceptedChars(chars, draws[1..])
  }

  lemma {:induction false} AcceptedAppend(chars: string, a: seq<byte>, b: seq<byte>)
    requires chars != []
    ensures AcceptedChars(chars, a + b) == AcceptedChars(chars, a) + AcceptedChars(chars, b)
  {
    if a == [] {
      assert a + b == b;
    } else {
      AcceptedAppend(chars, a[1..], b);
      assert (a + b)[1..] == a[1..] + b;
      Associative(CharOf(chars, a[0]), AcceptedChars(chars, a[1..]), AcceptedChars(chars, b));
    }
  }

  lemma AcceptedMore(chars: string, draws: seq<byte>, i: nat)
    requires chars != [] && i < |draws|
    ensures AcceptedChars(chars, draws[..i + 1]) == AcceptedChars(chars, draws[..i]) + CharOf(chars, draws[i])
  {
    hide CharOf;
    assert draws[..i + 1] == draws[..i] + [draws[i]];
    AcceptedAppend(chars, draws[..i], [draws[i]]);
    assert [draws[i]][1..] == [];
    assert CharOf(chars, draws[i]) + [] == CharOf(chars, draws[i]);
  }

  /** Filling the output, buffer by buffer, keeps the first accepted characters of the stream. */
  method GenerateValue(chars: string, wanted: nat, stream: seq<byte>) returns (r: Option<string>)
    requires 0 < |chars| && |stream| % BUFFER == 0
    ensures var len, all := Clamped(wanted), AcceptedChars(chars, stream);
            r == if |all| >= len then Some(all[..len]) else None
    ensures r.Some? ==> |r.value| == if wanted < 12 then 12 else if wanted > 256 then 256 else wanted
  {
    hide AcceptedChars, Kept, ByteLimit;
    var len := Clamped(wanted);
    var limit := ByteLimit(|chars|);
    var out := "";
    var filled: nat := 0;
    KeptStarts(chars, stream, len);
    while |out| < len
      invariant filled <= |stream| && filled % BUFFER == 0
      invariant Kept(chars, stream, filled, len, out)
      decreases |stream| - filled
    {
      if filled == |stream| {
        KeptEnds(chars, stream, filled, len, out);
        return None;
      }
      var buf := stream[filled..filled + BUFFER];
      var i := 0;
      while i < BUFFER
        invariant 0 <= i <= BUFFER
        invariant Kept(chars, stream, filled + i, len, out)
      {
        KeepOne(chars, stream, filled + i, len, out);
        if buf[i] < limit && |out| < len {
          out := out + [chars[buf[i] % |chars|]];
        } else {
          assert out + [] == out;
        }
        i := i + 1;
      }
      filled := filled + BUFFER;
    }
    KeptEnds(chars, stream, filled, len, out);
    return Some(out);
  }

  /** After `taken` draws the output is what was accepted so far, cut at len. */
  ghost predicate Kept(chars: string, stream: seq<byte>, taken: nat, len: nat, out: string)
    requires chars != []
  {
    && taken <= |stream|
    && var all := AcceptedChars(chars, stream[..taken]);
       out == if |all| <= len then all else all[..len]
  }

  lemma KeptStarts(chars: string, stream: seq<byte>, len: nat)
    requires chars != []
    ensures Kept(chars, stream, 0, len, [])
  {
    assert stream[..0] == [];
  }

  lemma KeepOne(chars: string, stream: seq<byte>, taken: nat, len: nat, out: string)
    requires chars != [] && taken < |stream| && Kept(chars, stream, taken, len, out)
    ensures var more := if stream[taken] < ByteLimit(|chars|) && |out| < len
                        then [chars[stream[taken] % |chars|]] else [];
            Kept(chars, stream, taken + 1, len, out + more)
  {
    hide AcceptedChars, ByteLimit;
    AcceptedMore(chars, stream, taken);
  }

  lemma KeptEnds(chars: string, stream: seq<byte>, taken: nat, len: nat, out: string)
    requires chars != [] && Kept(chars, stream, taken, len, out)
    requires |out| >= len || taken == |stream|
    ensures var all := AcceptedChars(chars, stream);
            if |out| >= len then |all| >= len && out == all[..len] else |all| < len
  {
    hide AcceptedChars;
    var soFar := AcceptedChars(chars, stream[..taken]);
    if taken == |stream| {
      assert stream[..taken] == stream;
    } else {
      assert stream == stream[..taken] + stream[taken..];
      AcceptedAppend(chars, stream[..taken], stream[taken..]);
      assert (soFar + AcceptedChars(chars, stream[taken..]))[..len] == soFar[..len];
    }
  }
}
