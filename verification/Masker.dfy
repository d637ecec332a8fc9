/** The streaming masker of zvault-agent and the loop in zvault-cli that feeds it. */
module Masking {
  // A scan emits pieces: bytes passed through, and masks that remember which secret they stand for.

  import opened Common

  const MASK: seq<byte> := [42, 42, 42, 42, 42, 42, 42, 42]
  const MIN_MASKED_LEN: nat := 4

  type Secret = seq<byte>

  // ---------------------------------------------------------------- kept secrets

  function LongEnough(given: seq<Secret>): seq<Secret> {
    if given == [] then []
    else (if |given[0]| >= MIN_MASKED_LEN then [given[0]] else []) + LongEnough(given[1..])
  }

  /** Inserts after every secret that is at least as long, so sorting is stable. */
  function Insert(sorted: seq<Secret>, s: Secret): seq<Secret> {
    if sorted == [] || |sorted[0]| < |s| then [s] + sorted
    else [sorted[0]] + Insert(sorted[1..], s)
  }

  function LongestFirst(ss: seq<Secret>): seq<Secret> {
    if ss == [] then [] else Insert(LongestFirst(ss[..|ss| - 1]), ss[|ss| - 1])
  }

  /** Drops all but one of a run of equal neighbours. */
  function Dedup(ss: seq<Secret>): seq<Secret> {
    if |ss| < 2 then ss
    else if ss[0] == ss[1] then Dedup(ss[1..])
    else [ss[0]] + Dedup(ss[1..])
  }

  ghost predicate NoneLonger(ss: seq<Secret>, n: nat) {
    forall s :: s in ss ==> |s| <= n
  }

  ghost predicate Descending(ss: seq<Secret>) {
    ss == [] || (NoneLonger(ss[1..], |ss[0]|) && Descending(ss[1..]))
  }

  lemma {:induction false} LongEnoughMembers(given: seq<Secret>)
    ensures forall s :: s in LongEnough(given) <==> s in given && |s| >= MIN_MASKED_LEN
  {
    if given != [] {
      LongEnoughMembers(given[1..]);
      assert given == [given[0]] + given[1..];
    }
  }

  lemma {:induction false} InsertMembers(sorted: seq<Secret>, s: Secret)
    ensures forall x :: x in Insert(sorted, s) <==> x in sorted || x == s
  {
    if sorted != [] {
      InsertMembers(sorted[1..], s);
      assert sorted == [sorted[0]] + sorted[1..];
    }
  }

  lemma {:induction false} InsertKeepsOrder(sorted: seq<Secret>, s: Secret)
    requires Descending(sorted)
    ensures Descending(Insert(sorted, s))
  {
    if sorted != [] {
      if |sorted[0]| < |s| {
        assert ([s] + sorted)[1..] == sorted == [sorted[0]] + sorted[1..];
      } else {
        InsertKeepsOrder(sorted[1..], s);
        InsertMembers(sorted[1..], s);
        assert ([sorted[0]] + Insert(sorted[1..], s))[1..] == Insert(sorted[1..], s);
      }
    }
  }

  lemma {:induction false} LongestFirstSorts(ss: seq<Secret>)
    ensures Descending(LongestFirst(ss))
    ensures forall x :: x in LongestFirst(ss) <==> x in ss
  {
    hide Descending, Insert;
    if ss == [] {
      NothingDescends();
    } else {
      var front, last := ss[..|ss| - 1], ss[|ss| - 1];
      LongestFirstSorts(front);
      InsertKeepsOrder(LongestFirst(front), last);
      InsertMembers(LongestFirst(front), last);
      assert ss == front + [last];
    }
  }

  lemma NothingDescends()
    ensures Descending([])
  {
  }

  lemma {:induction false} DedupMembers(ss: seq<Secret>)
    ensures forall x :: x in Dedup(ss) <==> x in ss
  {
    if |ss| >= 2 {
      DedupMembers(ss[1..]);
      assert ss == [ss[0]] + ss[1..];
    }
  }

  lemma {:induction false} DedupKeepsOrder(ss: seq<Secret>)
    requires Descending(ss)
    ensures Descending(Dedup(ss))
  {
    if |ss| >= 2 {
      DedupKeepsOrder(ss[1..]);
      DedupMembers(ss[1..]);
      assert ([ss[0]] + Dedup(ss[1..]))[1..] == Dedup(ss[1..]);
    }
  }

  function Longest(ss: seq<Secret>): nat {
    if ss == [] then 0 else |ss[0]|
  }

  /** How many bytes a push may hold back. */
  function Hold(ss: seq<Secret>): nat {
    if Longest(ss) == 0 then 0 else Longest(ss) - 1
  }

  ghost predicate Scannable(ss: seq<Secret>) {
    forall s :: s in ss ==> 0 < |s| <= Longest(ss)
  }

  lemma LongestComesFirst(ss: seq<Secret>)
    requires Descending(ss)
    ensures NoneLonger(ss, Longest(ss))
  {
    if ss != [] {
      assert ss == [ss[0]] + ss[1..];
    }
  }

  /** The kept secrets: exactly those of at least four bytes, longest first. */
  function Keep(given: seq<Secret>): (ss: seq<Secret>)
    ensures Scannable(ss) && Descending(ss)
    ensures forall s :: s in ss <==> s in given && |s| >= 4
  {
    LongEnoughMembers(given);
    var sorted := LongestFirst(LongEnough(given));
    LongestFirstSorts(LongEnough(given));
    DedupMembers(sorted);
    DedupKeepsOrder(sorted);
    LongestComesFirst(Dedup(sorted));
    Dedup(sorted)
  }

  // ---------------------------------------------------------------- scanning

  datatype Piece = Plain(b: byte) | Masked(secret: Secret)

  function Shown(piece: Piece): seq<byte> {
    match piece case Plain(b) => [b] case Masked(_) => MASK
  }

  function Covered(piece: Piece): seq<byte> {
    match piece case Plain(b) => [b] case Masked(s) => s
  }

  function Rendered(pieces: seq<Piece>): seq<byte> {
    if pieces == [] then [] else Shown(pieces[0]) + Rendered(pieces[1..])
  }

  function Restored(pieces: seq<Piece>): seq<byte> {
    if pieces == [] then [] else Covered(pieces[0]) + Restored(pieces[1..])
  }

  /** The first secret in the list that `rest` starts with. */
  function Match(ss: seq<Secret>, rest: seq<byte>): (m: Option<Secret>)
    ensures m.Some? ==> m.value in ss && m.value <= rest
    ensures m.None? ==> forall s :: s in ss ==> !(s <= rest)
  {
    if ss == [] then None
    else if ss[0] <= rest then Some(ss[0])
    else
      assert ss == [ss[0]] + ss[1..];
      Match(ss[1..], rest)
  }

  /**
   What one scan of `rest` emits and what it leaves, when it must not pass
   through a byte with `hold` or fewer bytes from there to the end.
   */
  function Scan(ss: seq<Secret>, rest: seq<byte>, hold: nat): (seq<Piece>, seq<byte>)
    requires Scannable(ss)
    decreases |rest|
  {
    if rest == [] then ([], [])
    else match Match(ss, rest)
      case Some(s) =>
        var (pieces, left) := Scan(ss, rest[|s|..], hold);
        ([Masked(s)] + pieces, left)
      case None =>
        if |rest| <= hold then ([], rest)
        else
          var (pieces, left) := Scan(ss, rest[1..], hold);
          ([Plain(rest[0])] + pieces, left)
  }

  /** Everything a masker holding `pending` emits for the chunks and at the end. */
  function Stream(ss: seq<Secret>, pending: seq<byte>, chunks: seq<seq<byte>>): seq<Piece>
    requires Scannable(ss)
    decreases |chunks|
  {
    if chunks == [] then Scan(ss, pending, 0).0
    else
      var (pieces, left) := Scan(ss, pending + chunks[0], Hold(ss));
      pieces + Stream(ss, left, chunks[1..])
  }

  function Joined(chunks: seq<seq<byte>>): seq<byte> {
    if chunks == [] then [] else chunks[0] + Joined(chunks[1..])
  }

  function Streamed(ss: seq<Secret>, chunks: seq<seq<byte>>): seq<byte>
    requires Scannable(ss)
  {
    Rendered(Stream(ss, [], chunks))
  }

  function OneShot(ss: seq<Secret>, input: seq<byte>): seq<byte>
    requires Scannable(ss)
  {
    Rendered(Scan(ss, input, 0).0)
  }

  // ---------------------------------------------------------------- soundness

  /**
   The pieces cover `input`, each mask stands on an occurrence of a kept secret,
   and no kept secret starts at a byte that is passed through.
   */
  ghost predicate Covers(ss: seq<Secret>, pieces: seq<Piece>, input: seq<byte>)
    decreases |pieces|
  {
    if pieces == [] then input == []
    else match pieces[0]
      case Plain(b) =>
        && input != [] && input[0] == b
        && Match(ss, input).None?
        && Covers(ss, pieces[1..], input[1..])
      case Masked(s) => s in ss && s <= input && Covers(ss, pieces[1..], input[|s|..])
  }

  lemma NoLongerMatch(ss: seq<Secret>, rest: seq<byte>, more: seq<byte>)
    requires Scannable(ss) && Match(ss, rest).None? && |rest| > Hold(ss)
    ensures Match(ss, rest + more).None?
  {
    forall s | s in ss
      ensures !(s <= rest + more)
    {
      assert |s| <= Longest(ss) <= |rest|;
      assert (rest + more)[..|s|] == rest[..|s|];
    }
  }

  lemma CoversMasked(ss: seq<Secret>, s: Secret, pieces: seq<Piece>, input: seq<byte>)
    requires s in ss && s <= input && Covers(ss, pieces, input[|s|..])
    ensures Covers(ss, [Masked(s)] + pieces, input)
  {
    assert ([Masked(s)] + pieces)[1..] == pieces;
  }

  lemma CoversPlain(ss: seq<Secret>, pieces: seq<Piece>, input: seq<byte>)
    requires input != [] && Match(ss, input).None? && Covers(ss, pieces, input[1..])
    ensures Covers(ss, [Plain(input[0])] + pieces, input)
  {
    assert ([Plain(input[0])] + pieces)[1..] == pieces;
  }

  lemma {:induction false} ScanCovers(ss: seq<Secret>, rest: seq<byte>, hold: nat, later: seq<Piece>, more: seq<byte>)
    requires Scannable(ss)
    requires hold == Hold(ss) || more == []
    requires Covers(ss, later, Scan(ss, rest, hold).1 + more)
    ensures Covers(ss, Scan(ss, rest, hold).0 + later, rest + more)
    decreases |rest|
  {
    var m := Match(ss, rest);
    if rest == [] || (m.None? && |rest| <= hold) {
      assert [] + later == later;
    } else if m.Some? {
      var s := m.value;
      ScanCovers(ss, rest[|s|..], hold, later, more);
      DropOfConcat(rest, more, |s|);
      CoversMasked(ss, s, Scan(ss, rest[|s|..], hold).0 + later, rest + more);
      Associative([Masked(s)], Scan(ss, rest[|s|..], hold).0, later);
    } else {
      ScanCovers(ss, rest[1..], hold, later, more);
      DropOfConcat(rest, more, 1);
      assert Match(ss, rest + more).None? by {
        if more == [] {
          assert rest + more == rest;
        } else {
          NoLongerMatch(ss, rest, more);
        }
      }
      CoversPlain(ss, Scan(ss, rest[1..], hold).0 + later, rest + more);
      Associative([Plain(rest[0])], Scan(ss, rest[1..], hold).0, later);
    }
  }

  lemma {:induction false} ScanLeaves(ss: seq<Secret>, rest: seq<byte>, hold: nat)
    requires Scannable(ss)
    ensures |Scan(ss, rest, hold).1| <= hold
    ensures ss != [] && hold == Hold(ss) ==> |Scan(ss, rest, hold).1| < Longest(ss)
    decreases |rest|
  {
    assert ss != [] ==> ss[0] in ss;
    if rest != [] {
      var m := Match(ss, rest);
      if m.Some? {
        ScanLeaves(ss, rest[|m.value|..], hold);
      } else if |rest| > hold {
        ScanLeaves(ss, rest[1..], hold);
      }
    }
  }

  lemma {:induction false} StreamCovers(ss: seq<Secret>, pending: seq<byte>, chunks: seq<seq<byte>>)
    requires Scannable(ss)
    ensures Covers(ss, Stream(ss, pending, chunks), pending + Joined(chunks))
    decreases |chunks|
  {
    hide Scan, Match, Covers;
    if chunks == [] {
      ScanLeaves(ss, pending, 0);
      assert Scan(ss, pending, 0).1 + [] == [];
      ScanCovers(ss, pending, 0, [], []);
      assert Scan(ss, pending, 0).0 + [] == Stream(ss, pending, []);
      assert chunks == [] && pending + [] == pending + Joined(chunks);
    } else {
      var (pieces, left) := Scan(ss, pending + chunks[0], Hold(ss));
      StreamCovers(ss, left, chunks[1..]);
      ScanCovers(ss, pending + chunks[0], Hold(ss), Stream(ss, left, chunks[1..]), Joined(chunks[1..]));
      assert pending + chunks[0] + Joined(chunks[1..]) == pending + Joined(chunks);
    }
  }

  lemma {:induction false} CoversRestores(ss: seq<Secret>, pieces: seq<Piece>, input: seq<byte>)
    requires Covers(ss, pieces, input)
    ensures Restored(pieces) == input
    decreases |pieces|
  {
    if pieces != [] {
      CoversRestores(ss, pieces[1..], input[|Covered(pieces[0])|..]);
    }
  }

  lemma CoversTail(ss: seq<Secret>, pieces: seq<Piece>, input: seq<byte>)
    requires Covers(ss, pieces, input) && pieces != []
    ensures |Covered(pieces[0])| <= |input|
    ensures Covers(ss, pieces[1..], input[|Covered(pieces[0])|..])
  {
  }

  /** Where in the input the piece at index i starts. */
  function Offset(pieces: seq<Piece>, i: nat): nat
    requires i <= |pieces|
  {
    if i == 0 then 0 else |Covered(pieces[0])| + Offset(pieces[1..], i - 1)
  }

  lemma {:induction false} CoversAt(ss: seq<Secret>, pieces: seq<Piece>, input: seq<byte>, i: nat)
    requires Covers(ss, pieces, input) && i < |pieces|
    ensures Offset(pieces, i) <= |input|
    ensures Covers(ss, pieces[i..], input[Offset(pieces, i)..])
    decreases i
  {
    hide Covers;
    if i == 0 {
      assert pieces[0..] == pieces && input[0..] == input;
    } else {
      CoversTail(ss, pieces, input);
      var first := |Covered(pieces[0])|;
      CoversAt(ss, pieces[1..], input[first..], i - 1);
      DropOfDrop(pieces, 1, i - 1);
      DropOfDrop(input, first, Offset(pieces[1..], i - 1));
    }
  }

  /**
   Whatever the secrets and however the input is cut: putting the secrets back in
   place of their masks gives the input, and no kept secret occurs at the offset
   of any byte that was passed through.
   */
  lemma NothingLeaks(given: seq<Secret>, chunks: seq<seq<byte>>)
    ensures var pieces := Stream(Keep(given), [], chunks);
            && Restored(pieces) == Joined(chunks)
            && forall i :: 0 <= i < |pieces| ==>
                 Offset(pieces, i) <= |Joined(chunks)| &&
                 (pieces[i].Masked? ==>
                    && pieces[i].secret in given && |pieces[i].secret| >= 4
                    && pieces[i].secret <= Joined(chunks)[Offset(pieces, i)..]) &&
                 (pieces[i].Plain? ==>
                    forall s :: s in given && |s| >= 4 ==>
                      !(s <= Joined(chunks)[Offset(pieces, i)..]))
  {
    hide Keep, Stream, Covers, Match, Restored, Joined, Offset;
    var ss, input := Keep(given), Joined(chunks);
    var pieces := Stream(ss, [], chunks);
    StreamCovers(ss, [], chunks);
    assert [] + input == input;
    CoversRestores(ss, pieces, input);
    forall i | 0 <= i < |pieces|
      ensures Offset(pieces, i) <= |input|
      ensures PieceFits(ss, pieces[i], input[Offset(pieces, i)..])
    {
      CoversAt(ss, pieces, input, i);
      CoversFirst(ss, pieces[i..], input[Offset(pieces, i)..]);
    }
  }

  /** A mask stands for a secret; no secret starts where a byte was passed through. */
  ghost predicate PieceFits(ss: seq<Secret>, piece: Piece, rest: seq<byte>) {
    match piece
    case Masked(s) => s in ss && s <= rest
    case Plain(_) => forall s :: s in ss ==> !(s <= rest)
  }

  lemma CoversFirst(ss: seq<Secret>, pieces: seq<Piece>, rest: seq<byte>)
    requires pieces != [] && Covers(ss, pieces, rest)
    ensures PieceFits(ss, pieces[0], rest)
  {
  }

  /** A byte passed through is written as it is, a mask as eight asterisks. */
  lemma WrittenAs(b: byte, s: Secret, pieces: seq<Piece>, more: seq<Piece>)
    ensures Rendered([Plain(b)]) == [b] && Rendered([Masked(s)]) == seq(8, _ => 42)
    ensures Rendered(pieces + more) == Rendered(pieces) + Rendered(more)
  {
    RenderedConcat(pieces, more);
    assert [Plain(b)][1..] == [] && [Masked(s)][1..] == [];
    assert MASK == seq(8, _ => 42);
  }

  lemma {:induction false} CleanCovers(ss: seq<Secret>, pieces: seq<Piece>, input: seq<byte>)
    requires Covers(ss, pieces, input)
    requires forall k, s :: 0 <= k <= |input| && s in ss ==> !(s <= input[k..])
    ensures Rendered(pieces) == input
    decreases |pieces|
  {
    if pieces != [] {
      assert input[0..] == input;
      var rest := input[1..];
      forall k, s | 0 <= k <= |rest| && s in ss ensures !(s <= rest[k..]) {
        DropOfDrop(input, 1, k);
      }
      CleanCovers(ss, pieces[1..], rest);
      assert [input[0]] + rest == input;
    }
  }

  /** Input in which no kept secret occurs comes out unchanged, however it is cut. */
  lemma CleanInputPasses(given: seq<Secret>, chunks: seq<seq<byte>>)
    requires forall k, s :: 0 <= k <= |Joined(chunks)| && s in given && |s| >= 4 ==> !(s <= Joined(chunks)[k..])
    ensures Streamed(Keep(given), chunks) == Joined(chunks)
  {
    hide Keep, Stream, Covers, Match, Joined;
    StreamCovers(Keep(given), [], chunks);
    assert [] + Joined(chunks) == Joined(chunks);
    CleanCovers(Keep(given), Stream(Keep(given), [], chunks), Joined(chunks));
  }

  // ---------------------------------------------------------------- chunking

  ghost predicate PrefixFree(ss: seq<Secret>) {
    forall s, t :: s in ss && t in ss ==> !(s < t)
  }

  lemma {:induction false} RenderedConcat(a: seq<Piece>, b: seq<Piece>)
    ensures Rendered(a + b) == Rendered(a) + Rendered(b)
  {
    if a == [] {
      assert a + b == b;
    } else {
      RenderedConcat(a[1..], b);
      assert (a + b)[1..] == a[1..] + b;
      Associative(Shown(a[0]), Rendered(a[1..]), Rendered(b));
    }
  }

  lemma RenderedMore(done: seq<Piece>, piece: Piece)
    ensures Rendered(done + [piece]) == Rendered(done) + Shown(piece)
  {
    RenderedConcat(done, [piece]);
    assert Rendered([piece]) == Shown(piece) + Rendered([]);
  }

  lemma PrefixFreeMatch(ss: seq<Secret>, rest: seq<byte>, more: seq<byte>)
    requires Scannable(ss) && PrefixFree(ss) && Match(ss, rest).Some?
    ensures Match(ss, rest + more) == Match(ss, rest)
  {
    var s := Match(ss, rest).value;
    assert s <= rest + more;
    var t := Match(ss, rest + more).value;
    assert if |s| <= |t| then s <= t else t <= s;
    assert s == t || s < t || t < s;
  }

  lemma {:induction false} ScanThenMore(ss: seq<Secret>, rest: seq<byte>, more: seq<byte>)
    requires Scannable(ss) && PrefixFree(ss)
    ensures Scan(ss, rest + more, 0).0 ==
            Scan(ss, rest, Hold(ss)).0 + Scan(ss, Scan(ss, rest, Hold(ss)).1 + more, 0).0
    decreases |rest|
  {
    var m := Match(ss, rest);
    var tail := Scan(ss, Scan(ss, rest, Hold(ss)).1 + more, 0).0;
    if rest == [] || (m.None? && |rest| <= Hold(ss)) {
    } else if m.Some? {
      var after := rest[|m.value|..];
      PrefixFreeMatch(ss, rest, more);
      ScanThenMore(ss, after, more);
      DropOfConcat(rest, more, |m.value|);
      Associative([Masked(m.value)], Scan(ss, after, Hold(ss)).0, tail);
    } else {
      NoLongerMatch(ss, rest, more);
      ScanThenMore(ss, rest[1..], more);
      DropOfConcat(rest, more, 1);
      Associative([Plain(rest[0])], Scan(ss, rest[1..], Hold(ss)).0, tail);
    }
  }

  lemma {:induction false} StreamIsOneShot(ss: seq<Secret>, pending: seq<byte>, chunks: seq<seq<byte>>)
    requires Scannable(ss) && PrefixFree(ss)
    ensures Stream(ss, pending, chunks) == Scan(ss, pending + Joined(chunks), 0).0
    decreases |chunks|
  {
    if chunks == [] {
      assert pending + Joined(chunks) == pending;
    } else {
      var buf, later := pending + chunks[0], Joined(chunks[1..]);
      Associative(pending, chunks[0], later);
      StreamIsOneShot(ss, Scan(ss, buf, Hold(ss)).1, chunks[1..]);
      ScanThenMore(ss, buf, later);
    }
  }

  lemma {:induction false} MatchIsLongest(ss: seq<Secret>, rest: seq<byte>, s: Secret)
    requires Descending(ss) && s in ss && s <= rest
    ensures Match(ss, rest).Some? && |s| <= |Match(ss, rest).value|
  {
    assert ss == [ss[0]] + ss[1..];
    if ss[0] <= rest {
      LongestComesFirst(ss);
    } else {
      MatchIsLongest(ss[1..], rest, s);
    }
  }

  lemma WholeSecret(ss: seq<Secret>, s: Secret, hold: nat)
    requires Scannable(ss) && Descending(ss) && s in ss
    ensures Scan(ss, s, hold) == ([Masked(s)], [])
  {
    MatchIsLongest(ss, s, s);
    assert Match(ss, s).value == s;
    assert s[|s|..] == [] && [Masked(s)] + [] == [Masked(s)];
  }

  /** A secret that another extends comes out as two pieces when cut after the shorter one. */
  lemma CutInsideLonger(ss: seq<Secret>, s: Secret, t: Secret)
    requires Scannable(ss) && Descending(ss) && s in ss && t in ss && s < t
    ensures Streamed(ss, [s, t[|s|..]]) != OneShot(ss, Joined([s, t[|s|..]]))
  {
    var tail := t[|s|..];
    var chunks := [s, tail];
    assert Joined(chunks[1..]) == tail by {
      assert chunks[1..] == [tail];
      assert tail + [] == tail;
    }
    assert Joined(chunks) == t;
    WholeSecret(ss, t, 0);
    WholeSecret(ss, s, Hold(ss));
    assert [] + s == s;
    var rest := Stream(ss, [], chunks[1..]);
    assert Stream(ss, [], chunks) == [Masked(s)] + rest;
    StreamCovers(ss, [], chunks[1..]);
    assert [] + tail == tail;
    assert rest != [];
    assert ([Masked(s)] + rest)[1..] == rest;
    assert |Rendered(rest)| > 0;
    assert Rendered([Masked(t)]) == MASK + Rendered([]);
  }

  /**
   Cutting the input never changes the output exactly when no kept secret is a
   proper prefix of another.
   */
  lemma ChunkingIsInvisible(given: seq<Secret>)
    ensures PrefixFree(Keep(given)) <==>
            forall chunks :: Streamed(Keep(given), chunks) == OneShot(Keep(given), Joined(chunks))
  {
    hide Scan, Stream, Rendered, Keep, Descending;
    var ss := Keep(given);
    if PrefixFree(ss) {
      forall chunks ensures Streamed(ss, chunks) == OneShot(ss, Joined(chunks)) {
        StreamIsOneShot(ss, [], chunks);
        assert [] + Joined(chunks) == Joined(chunks);
      }
    } else {
      var s, t :| s in ss && t in ss && s < t;
      CutInsideLonger(ss, s, t);
    }
  }

  // ---------------------------------------------------------------- the masker

  /** `done` is emitted, and scanning `rest` emits and leaves what is missing from `goal`. */
  ghost predicate ScanReaches(ss: seq<Secret>, done: seq<Piece>, rest: seq<byte>, hold: nat,
                              goal: (seq<Piece>, seq<byte>))
    requires Scannable(ss)
  {
    goal == (done + Scan(ss, rest, hold).0, Scan(ss, rest, hold).1)
  }

  lemma StepMasked(ss: seq<Secret>, done: seq<Piece>, rest: seq<byte>, hold: nat, goal: (seq<Piece>, seq<byte>))
    requires Scannable(ss) && ScanReaches(ss, done, rest, hold, goal)
    requires rest != [] && Match(ss, rest).Some?
    ensures var s := Match(ss, rest).value;
            |s| > 0 && ScanReaches(ss, done + [Masked(s)], rest[|s|..], hold, goal)
  {
    var s := Match(ss, rest).value;
    Associative(done, [Masked(s)], Scan(ss, rest[|s|..], hold).0);
  }

  lemma StepPlain(ss: seq<Secret>, done: seq<Piece>, rest: seq<byte>, hold: nat, goal: (seq<Piece>, seq<byte>))
    requires Scannable(ss) && ScanReaches(ss, done, rest, hold, goal)
    requires rest != [] && Match(ss, rest).None? && |rest| > hold
    ensures ScanReaches(ss, done + [Plain(rest[0])], rest[1..], hold, goal)
  {
    Associative(done, [Plain(rest[0])], Scan(ss, rest[1..], hold).0);
  }

  ghost predicate LoopAt(ss: seq<Secret>, buf: seq<byte>, i: int, hold: nat, done: seq<Piece>, out: seq<byte>,
                         goal: (seq<Piece>, seq<byte>))
    requires Scannable(ss)
  {
    0 <= i <= |buf| && out == Rendered(done) && ScanReaches(ss, done, buf[i..], hold, goal)
  }

  lemma LoopStarts(ss: seq<Secret>, buf: seq<byte>, hold: nat)
    requires Scannable(ss)
    ensures LoopAt(ss, buf, 0, hold, [], [], Scan(ss, buf, hold))
  {
    assert buf[0..] == buf && [] + Scan(ss, buf, hold).0 == Scan(ss, buf, hold).0;
  }

  lemma LoopMasks(ss: seq<Secret>, buf: seq<byte>, i: int, hold: nat, done: seq<Piece>, out: seq<byte>,
                  goal: (seq<Piece>, seq<byte>), s: Secret)
    requires Scannable(ss) && LoopAt(ss, buf, i, hold, done, out, goal)
    requires i < |buf| && Match(ss, buf[i..]) == Some(s)
    ensures |s| > 0 && LoopAt(ss, buf, i + |s|, hold, done + [Masked(s)], out + MASK, goal)
  {
    hide Scan, Match, Rendered, ScanReaches, Scannable;
    StepMasked(ss, done, buf[i..], hold, goal);
    DropOfDrop(buf, i, |s|);
    RenderedMore(done, Masked(s));
  }

  lemma LoopPasses(ss: seq<Secret>, buf: seq<byte>, i: int, hold: nat, done: seq<Piece>, out: seq<byte>,
                   goal: (seq<Piece>, seq<byte>))
    requires Scannable(ss) && LoopAt(ss, buf, i, hold, done, out, goal)
    requires i < |buf| && Match(ss, buf[i..]).None? && |buf| - i > hold
    ensures LoopAt(ss, buf, i + 1, hold, done + [Plain(buf[i])], out + [buf[i]], goal)
  {
    hide Scan, Match, Rendered, ScanReaches, Scannable;
    StepPlain(ss, done, buf[i..], hold, goal);
    DropOfDrop(buf, i, 1);
    RenderedMore(done, Plain(buf[i]));
  }

  lemma LoopEnds(ss: seq<Secret>, buf: seq<byte>, i: int, hold: nat, done: seq<Piece>, out: seq<byte>,
                 goal: (seq<Piece>, seq<byte>))
    requires Scannable(ss) && LoopAt(ss, buf, i, hold, done, out, goal)
    requires i == |buf| || (Match(ss, buf[i..]).None? && |buf| - i <= hold)
    ensures goal == (done, buf[i..]) && out == Rendered(goal.0)
  {
    assert done + [] == done;
  }

  class Masker {
    var secrets: seq<Secret>
    var pending: seq<byte>
    var longest: nat

    ghost predicate Valid()
      reads this
    {
      Scannable(secrets) && longest == Longest(secrets) && (pending == [] || |pending| < longest)
    }

    constructor (given: seq<Secret>)
      ensures Valid() && secrets == Keep(given) && pending == []
    {
      secrets := Keep(given);
      pending := [];
      longest := Longest(Keep(given));
    }

    method ScanPending(all: bool) returns (out: seq<byte>, consumed: nat)
      requires Scannable(secrets) && longest == Longest(secrets)
      requires !all ==> secrets != []
      ensures var (pieces, left) := Scan(secrets, pending, if all then 0 else Hold(secrets));
              out == Rendered(pieces) && consumed <= |pending| && pending[consumed..] == left
    {
      out := [];
      hide Scan, Match, Rendered;
      var buf := pending;
      var i := 0;
      var safe := if all then |buf| else if |buf| < longest - 1 then 0 else |buf| - (longest - 1);
      ghost var hold := if all then 0 else Hold(secrets);
      ghost var done: seq<Piece> := [];
      ghost var goal := Scan(secrets, buf, hold);
      LoopStarts(secrets, buf, hold);
      while i < |buf|
        invariant LoopAt(secrets, buf, i, hold, done, out, goal)
        decreases |buf| - i
      {
        var m := Match(secrets, buf[i..]);
        if m.Some? {
          LoopMasks(secrets, buf, i, hold, done, out, goal, m.value);
          out := out + MASK;
          done := done + [Masked(m.value)];
          i := i + |m.value|;
          continue;
        }
        if i >= safe {
          break;
        }
        LoopPasses(secrets, buf, i, hold, done, out, goal);
        out := out + [buf[i]];
        done := done + [Plain(buf[i])];
        i := i + 1;
      }
      LoopEnds(secrets, buf, i, hold, done, out, goal);
      consumed := i;
    }

    method Push(chunk: seq<byte>) returns (out: seq<byte>)
      requires Valid()
      modifies this`pending
      ensures Valid()
      ensures var (pieces, left) := Scan(secrets, old(pending) + chunk, Hold(secrets));
              out == Rendered(pieces) && pending == left
    {
      pending := pending + chunk;
      if secrets == [] {
        NoSecrets(pending);
        out := pending;
        pending := [];
        return;
      }
      ScanLeaves(secrets, pending, Hold(secrets));
      var consumed;
      out, consumed := ScanPending(false);
      pending := pending[consumed..];
    }

    method Finish() returns (out: seq<byte>)
      requires Valid()
      modifies this`pending
      ensures Valid() && pending == []
      ensures out == Rendered(Scan(secrets, old(pending), 0).0)
    {
      var consumed;
      out, consumed := ScanPending(true);
      pending := [];
    }
  }

  lemma {:induction false} NoSecrets(rest: seq<byte>)
    ensures Rendered(Scan([], rest, 0).0) == rest && Scan([], rest, 0).1 == []
    decreases |rest|
  {
    if rest != [] {
      NoSecrets(rest[1..]);
      var pieces := Scan([], rest, 0).0;
      assert pieces[1..] == Scan([], rest[1..], 0).0;
    }
  }

  /** The copying loop: masks everything read, and flushes the masker at the end. */
  method Pump(chunks: seq<seq<byte>>, given: seq<Secret>) returns (written: seq<byte>)
    ensures written == Streamed(Keep(given), chunks)
  {
    var masker := new Masker(given);
    written := [];
    var i := 0;
    ghost var emitted: seq<Piece> := [];
    ghost var whole := Stream(Keep(given), [], chunks);
    assert chunks[0..] == chunks && [] + whole == whole;
    while i < |chunks|
      invariant 0 <= i <= |chunks|
      invariant masker.Valid() && masker.secrets == Keep(given) && fresh(masker)
      invariant written == Rendered(emitted)
      invariant whole == emitted + Stream(Keep(given), masker.pending, chunks[i..])
    {
      ghost var pending := masker.pending;
      var masked := masker.Push(chunks[i]);
      emitted := StepChunk(Keep(given), pending, chunks, i, emitted);
      written := written + masked;
      i := i + 1;
    }
    RenderedConcat(emitted, Scan(Keep(given), masker.pending, 0).0);
    var rest := masker.Finish();
    written := written + rest;
  }

  lemma StepChunk(ss: seq<Secret>, pending: seq<byte>, chunks: seq<seq<byte>>, i: nat, emitted: seq<Piece>)
    returns (more: seq<Piece>)
    requires Scannable(ss) && i < |chunks|
    ensures var (pieces, left) := Scan(ss, pending + chunks[i], Hold(ss));
            && Rendered(more) == Rendered(emitted) + Rendered(pieces)
            && emitted + Stream(ss, pending, chunks[i..]) == more + Stream(ss, left, chunks[i + 1..])
  {
    var (pieces, left) := Scan(ss, pending + chunks[i], Hold(ss));
    more := emitted + pieces;
    RenderedConcat(emitted, pieces);
    DropOfDrop(chunks, i, 1);
    Associative(emitted, pieces, Stream(ss, left, chunks[i + 1..]));
  }
}
