/** Line framing of the agent protocol: one message a line, from a source that hands out bytes in pieces of any size. */
module Wire {
  // A message is the byte string its JSON encoding gives, which holds no newline.

  import opened Common

  const MAX_MESSAGE: nat := 262144
  const NEWLINE: byte := 10

  datatype WireError = TooLarge | Closed

  // ---------------------------------------------------------------- lines of a byte stream

  /** The position of the first newline, or the length if there is none. */
  function LineEnd(stream: seq<byte>): (n: nat)
    ensures n <= |stream|
    ensures n < |stream| ==> stream[n] == NEWLINE
    ensures forall i :: 0 <= i < n ==> stream[i] != NEWLINE
  {
    if stream == [] || stream[0] == NEWLINE then 0 else 1 + LineEnd(stream[1..])
  }

  /** What one read gives for a whole stream, however it is cut. */
  function FirstLine(stream: seq<byte>): Result<seq<byte>, WireError> {
    var n := LineEnd(stream);
    if n > MAX_MESSAGE then Err(TooLarge)
    else if n < |stream| then Ok(stream[..n])
    else Err(Closed)
  }

  function AfterLine(stream: seq<byte>): seq<byte> {
    var n := LineEnd(stream);
    if n < |stream| then stream[n + 1..] else []
  }

  /** Only the bytes decide: a line ends at the first newline, and may hold 262144 bytes before it. */
  lemma FirstLineMeaning(stream: seq<byte>, line: seq<byte>)
    ensures FirstLine(stream) == Ok(line) <==> line + [10] <= stream && 10 !in line && |line| <= 262144
    ensures FirstLine(stream) == Ok(line) ==> stream == line + [10] + AfterLine(stream)
    ensures FirstLine(stream) == Err(TooLarge) <==>
            |stream| > 262144 && forall i :: 0 <= i <= 262144 ==> stream[i] != 10
    ensures FirstLine(stream) == Err(Closed) <==> |stream| <= 262144 && 10 !in stream
  {
    hide LineEnd;
    var n := LineEnd(stream);
    if FirstLine(stream) == Ok(line) {
      assert line + [10] == stream[..n + 1];
    }
    if line + [10] <= stream && 10 !in line && |line| <= 262144 {
      assert stream[|line|] == (line + [10])[|line|] == 10;
      forall i | 0 <= i < |line| ensures stream[i] == line[i] {
        assert stream[i] == (line + [10])[i];
      }
      assert n == |line|;
      assert stream[..n] == line;
    }
  }

  lemma {:induction false} LineEndConcat(a: seq<byte>, b: seq<byte>)
    ensures LineEnd(a + b) == if LineEnd(a) < |a| then LineEnd(a) else |a| + LineEnd(b)
  {
    if a == [] {
      assert a + b == b;
    } else if a[0] != NEWLINE {
      LineEndConcat(a[1..], b);
      assert (a + b)[1..] == a[1..] + b;
    }
  }

  function Joined(chunks: seq<seq<byte>>): seq<byte> {
    if chunks == [] then [] else chunks[0] + Joined(chunks[1..])
  }

  // ---------------------------------------------------------------- reading

  /** A `BufRead`: the buffers still to come, none of them empty. */
  class Source {
    var chunks: seq<seq<byte>>

    ghost predicate Valid()
      reads this
    {
      forall i :: 0 <= i < |chunks| ==> chunks[i] != []
    }

    ghost function Left(): seq<byte>
      reads this
    {
      Joined(chunks)
    }

    constructor (given: seq<seq<byte>>)
      requires forall i :: 0 <= i < |given| ==> given[i] != []
      ensures Valid() && Left() == Joined(given)
    {
      chunks := given;
    }

    method FillBuf() returns (buf: seq<byte>)
      requires Valid()
      ensures buf == if chunks == [] then [] else chunks[0]
    {
      buf := if chunks == [] then [] else chunks[0];
    }

    method Consume(used: nat)
      requires Valid() && chunks != [] && used <= |chunks[0]|
      modifies this
      ensures Valid() && Left() == old(Left())[used..]
      ensures |Left()| == |old(Left())| - used
    {
      var first, rest := chunks[0], chunks[1..];
      DropOfConcat(first, Joined(rest), used);
      if used == |first| {
        assert first[used..] == [];
        assert [] + Joined(rest) == Joined(rest);
        chunks := rest;
      } else {
        chunks := [first[used..]] + rest;
        assert chunks[1..] == rest;
      }
    }

    method ReadMessage() returns (r: Result<seq<byte>, WireError>)
      requires Valid()
      modifies this
      ensures Valid()
      ensures r == FirstLine(old(Left()))
      ensures r.Ok? ==> Left() == AfterLine(old(Left()))
    {
      hide LineEnd, Joined, FirstLine, AfterLine, Reading;
      ghost var stream := Left();
      var line: seq<byte> := [];
      ReadStarts(stream);
      while true
        invariant Valid() && Reading(stream, line, Left())
        decreases |Left()|
      {
        var buf := FillBuf();
        NextBuffer(chunks);
        if buf == [] {
          ReadEnds(stream, line);
          return Err(Closed);
        }
        ReadStep(stream, line, buf, Joined(chunks[1..]));
        var i := LineEnd(buf);
        var chunk := buf[..i];
        if |line| + |chunk| > MAX_MESSAGE {
          return Err(TooLarge);
        }
        line := line + chunk;
        var used := if i < |buf| then i + 1 else |buf|;
        Consume(used);
        if i < |buf| {
          return Ok(line);
        }
      }
    }
  }

  lemma NextBuffer(chunks: seq<seq<byte>>)
    ensures Joined(chunks) == if chunks == [] then [] else chunks[0] + Joined(chunks[1..])
  {
  }

  /** `line` has been read of a stream, and holds no newline. */
  ghost predicate Reading(stream: seq<byte>, line: seq<byte>, left: seq<byte>) {
    stream == line + left && LineEnd(line) == |line| <= MAX_MESSAGE
  }

  lemma ReadStarts(stream: seq<byte>)
    ensures Reading(stream, [], stream)
  {
    assert [] + stream == stream;
  }

  lemma ReadEnds(stream: seq<byte>, line: seq<byte>)
    requires Reading(stream, line, [])
    ensures FirstLine(stream) == Err(Closed)
  {
    assert line + [] == line;
  }

  /** What the next buffer decides. */
  lemma ReadStep(stream: seq<byte>, line: seq<byte>, buf: seq<byte>, rest: seq<byte>)
    requires Reading(stream, line, buf + rest)
    ensures var i := LineEnd(buf);
            if |line| + i > MAX_MESSAGE then FirstLine(stream) == Err(TooLarge)
            else if i < |buf| then
              FirstLine(stream) == Ok(line + buf[..i]) && AfterLine(stream) == (buf + rest)[i + 1..]
            else Reading(stream, line + buf[..i], (buf + rest)[i..])
  {
    hide LineEnd, Reading, FirstLine, AfterLine;
    ReadTooLarge(stream, line, buf, rest);
    if |line| + LineEnd(buf) > MAX_MESSAGE {
    } else if LineEnd(buf) < |buf| {
      ReadLine(stream, line, buf, rest);
    } else {
      ReadOn(stream, line, buf, rest);
    }
  }

  lemma ReadTooLarge(stream: seq<byte>, line: seq<byte>, buf: seq<byte>, rest: seq<byte>)
    requires Reading(stream, line, buf + rest)
    ensures |line| + LineEnd(buf) > MAX_MESSAGE ==> FirstLine(stream) == Err(TooLarge)
  {
    hide LineEnd;
    LineEndConcat(line, buf + rest);
    LineEndConcat(buf, rest);
  }

  lemma ReadLine(stream: seq<byte>, line: seq<byte>, buf: seq<byte>, rest: seq<byte>)
    requires Reading(stream, line, buf + rest)
    requires LineEnd(buf) < |buf| && |line| + LineEnd(buf) <= MAX_MESSAGE
    ensures FirstLine(stream) == Ok(line + buf[..LineEnd(buf)])
    ensures AfterLine(stream) == (buf + rest)[LineEnd(buf) + 1..]
  {
    hide LineEnd, FirstLine, AfterLine;
    var i := LineEnd(buf);
    var n := |line| + i;
    LineEndConcat(line, buf + rest);
    LineEndConcat(buf, rest);
    FirstLineAt(stream, n);
    CutAt(stream, line, buf, rest, i, n);
  }

  lemma FirstLineAt(stream: seq<byte>, n: nat)
    requires LineEnd(stream) == n < |stream| && n <= MAX_MESSAGE
    ensures FirstLine(stream) == Ok(stream[..n]) && AfterLine(stream) == stream[n + 1..]
  {
    hide LineEnd;
  }

  lemma ReadOn(stream: seq<byte>, line: seq<byte>, buf: seq<byte>, rest: seq<byte>)
    requires Reading(stream, line, buf + rest) && LineEnd(buf) == |buf| && |line| + |buf| <= MAX_MESSAGE
    ensures Reading(stream, line + buf[..|buf|], (buf + rest)[|buf|..])
  {
    hide LineEnd;
    LineEndConcat(line, buf);
    assert buf[..|buf|] == buf;
    DropOfConcat(buf, rest, |buf|);
    assert buf[|buf|..] == [] && [] + rest == rest;
    Associative(line, buf, rest);
  }

  lemma CutAt(stream: seq<byte>, line: seq<byte>, buf: seq<byte>, rest: seq<byte>, i: nat, n: nat)
    requires stream == line + (buf + rest) && i < |buf| && n == |line| + i
    ensures stream[..n] == line + buf[..i] && stream[n + 1..] == (buf + rest)[i + 1..]
  {
  }

  // ---------------------------------------------------------------- writing

  function WriteMessage(msg: seq<byte>): (r: Result<seq<byte>, WireError>)
    ensures if |msg| > 262144 then r == Err(TooLarge) else r.Ok? && r.value == msg + [10]
  {
    if |msg| > MAX_MESSAGE then Err(TooLarge) else Ok(msg + [NEWLINE])
  }

  ghost predicate Sendable(msg: seq<byte>) {
    |msg| <= 262144 && 10 !in msg
  }

  function WriteAll(msgs: seq<seq<byte>>): seq<byte>
    requires forall i :: 0 <= i < |msgs| ==> Sendable(msgs[i])
  {
    if msgs == [] then []
    else
      assert Sendable(msgs[0]);
      WriteMessage(msgs[0]).value + WriteAll(msgs[1..])
  }

  lemma WrittenFirst(msg: seq<byte>, rest: seq<byte>)
    requires Sendable(msg)
    ensures FirstLine(WriteMessage(msg).value + rest) == Ok(msg)
    ensures AfterLine(WriteMessage(msg).value + rest) == rest
  {
    var stream := msg + [NEWLINE] + rest;
    LineEndConcat(msg + [NEWLINE], rest);
    LineEndConcat(msg, [NEWLINE]);
    assert LineEnd(stream) == |msg|;
    assert stream[..|msg|] == msg && stream[|msg| + 1..] == rest;
  }

  /** Reading line after line until the source is closed or misbehaves. */
  function ReadLines(stream: seq<byte>): seq<seq<byte>>
    decreases |stream|
  {
    match FirstLine(stream)
    case Ok(line) => [line] + ReadLines(AfterLine(stream))
    case Err(_) => []
  }

  /** What was written comes back, message by message. */
  lemma {:induction false} ReadsBackWritten(msgs: seq<seq<byte>>)
    requires forall i :: 0 <= i < |msgs| ==> Sendable(msgs[i])
    ensures ReadLines(WriteAll(msgs)) == msgs
  {
    if msgs != [] {
      ReadsBackWritten(msgs[1..]);
      WrittenFirst(msgs[0], WriteAll(msgs[1..]));
    }
  }

  /** The receiving loop: whatever the buffers, it gives the lines of the stream. */
  method ReadAll(source: Source) returns (msgs: seq<seq<byte>>)
    requires source.Valid()
    modifies source
    ensures msgs == ReadLines(old(source.Left()))
  {
    msgs := [];
    ghost var stream := source.Left();
    while true
      invariant source.Valid()
      invariant ReadLines(stream) == msgs + ReadLines(source.Left())
      decreases |source.Left()|
    {
      ghost var left := source.Left();
      var r := source.ReadMessage();
      if r.Err? {
        assert msgs + [] == msgs;
        return;
      }
      Associative(msgs, [r.value], ReadLines(AfterLine(left)));
      msgs := msgs + [r.value];
    }
  }
}
