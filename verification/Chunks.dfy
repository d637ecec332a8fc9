/** A sequence cut into pieces of one size, the last one perhaps shorter. */
module Chunks {
  import opened Common

  function ChunksOf<T>(s: seq<T>, size: nat): (parts: seq<seq<T>>)
    requires size > 0
    ensures forall i :: 0 <= i < |parts| ==> 0 < |parts[i]| <= size
    ensures forall i :: 0 <= i < |parts| ==> forall x :: x in parts[i] ==> x in s
  {
    if s == [] then []
    else if |s| <= size then [s]
    else [s[..size]] + ChunksOf(s[size..], size)
  }

  function Flat<T>(parts: seq<seq<T>>): seq<T> {
    if parts == [] then [] else parts[0] + Flat(parts[1..])
  }

  /** Cutting loses nothing. */
  lemma {:induction false} FlatChunks<T>(s: seq<T>, size: nat)
    requires size > 0
    ensures Flat(ChunksOf(s, size)) == s
  {
    hide Flat;
    if |s| > size {
      FlatChunks(s[size..], size);
      FlatFirst(s[..size], ChunksOf(s[size..], size));
      assert s == s[..size] + s[size..];
    } else {
      FlatFirst(s, []);
      assert [s] + [] == [s] && s + [] == s;
    }
  }

  lemma FlatFirst<T>(first: seq<T>, rest: seq<seq<T>>)
    ensures Flat<T>([]) == [] && Flat([first] + rest) == first + Flat(rest)
  {
    assert ([first] + rest)[1..] == rest;
  }

  lemma {:induction false} ChunkCount<T>(s: seq<T>, size: nat)
    requires size > 0
    ensures |ChunksOf(s, size)| * size < |s| + size
  {
    if |s| > size {
      ChunkCount(s[size..], size);
    }
  }

  /** Only the last piece may be short. */
  lemma {:induction false} FullChunks<T>(s: seq<T>, size: nat, i: nat)
    requires size > 0 && i < |ChunksOf(s, size)|
    ensures i + 1 < |ChunksOf(s, size)| ==> |ChunksOf(s, size)[i]| == size
  {
    if |s| > size && i > 0 {
      FullChunks(s[size..], size, i - 1);
    } else if |s| > size {
      assert ChunksOf(s, size)[0] == s[..size];
    }
  }
}
