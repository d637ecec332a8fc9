/**
 Splitting, joining and trimming text.

 These are the text operations of Rust that the parsers are built from, on
 sequences of characters: `split` gives the pieces between separators,
 `split_once` the text before and after the first one, and `trim` what is left
 without white space at both ends. The facts proved of them are the ones the
 round trips rest on: joining undoes splitting, a separator is found where it
 was put, and trimming twice is trimming once.
 */
module Text {
  import opened Common

  /** Rust's `str::split`: the pieces between separators, at least one. */
  function Split(s: string, sep: char): (parts: seq<string>)
    ensures parts != []
    ensures forall i :: 0 <= i < |parts| ==> sep !in parts[i]
  {
    if s == [] then [[]]
    else
      var rest := Split(s[1..], sep);
      if s[0] == sep then [[]] + rest else [[s[0]] + rest[0]] + rest[1..]
  }

  function Join(parts: seq<string>, sep: char): string {
    if parts == [] then []
    else if |parts| == 1 then parts[0]
    else parts[0] + [sep] + Join(parts[1..], sep)
  }

  ghost predicate FreeOf(parts: seq<string>, sep: char) {
    forall i :: 0 <= i < |parts| ==> sep !in parts[i]
  }

  lemma {:induction false} SplitNone(s: string, sep: char)
    requires sep !in s
    ensures Split(s, sep) == [s]
  {
    if s != [] {
      assert s == [s[0]] + s[1..];
      SplitNone(s[1..], sep);
    }
  }

  lemma {:induction false} SplitFirst(head: string, tail: string, sep: char)
    requires sep !in head
    ensures Split(head + [sep] + tail, sep) == [head] + Split(tail, sep)
  {
    var s := head + [sep] + tail;
    if head == [] {
      assert s[1..] == tail;
    } else {
      assert head == [head[0]] + head[1..];
      assert s[1..] == head[1..] + [sep] + tail;
      SplitFirst(head[1..], tail, sep);
    }
  }

  lemma {:induction false} SplitJoin(parts: seq<string>, sep: char)
    requires parts != [] && FreeOf(parts, sep)
    ensures Split(Join(parts, sep), sep) == parts
  {
    if |parts| == 1 {
      SplitNone(parts[0], sep);
    } else {
      SplitJoin(parts[1..], sep);
      SplitFirst(parts[0], Join(parts[1..], sep), sep);
    }
  }

  lemma {:induction false} JoinSplit(s: string, sep: char)
    ensures Join(Split(s, sep), sep) == s
  {
    if s != [] {
      JoinSplit(s[1..], sep);
      var parts, rest := Split(s, sep), Split(s[1..], sep);
      if s[0] == sep {
        assert parts[1..] == rest;
      } else if |rest| == 1 {
        assert parts == [[s[0]] + rest[0]];
      } else {
        assert parts[1..] == rest[1..];
      }
    }
  }

  // ---------------------------------------------------------------- trimming

  /** Unicode's White_Space property, which `str::trim` goes by. */
  predicate IsWhitespace(c: char) {
    || '\U{0009}' <= c <= '\U{000D}' || c == ' ' || c == '\U{0085}' || c == '\U{00A0}' || c == '\U{1680}'
    || '\U{2000}' <= c <= '\U{200A}' || c == '\U{2028}' || c == '\U{2029}' || c == '\U{202F}'
    || c == '\U{205F}' || c == '\U{3000}'
  }

  /** The twenty-five code points that have the property. */
  lemma WhitespaceIs(c: char)
    ensures IsWhitespace(c) <==>
            || c as int in {0x9, 0xA, 0xB, 0xC, 0xD, 0x20, 0x85, 0xA0, 0x1680}
            || c as int in {0x2000, 0x2001, 0x2002, 0x2003, 0x2004, 0x2005, 0x2006, 0x2007, 0x2008, 0x2009, 0x200A}
            || c as int in {0x2028, 0x2029, 0x202F, 0x205F, 0x3000}
  {
  }

  function TrimStart(s: string): string {
    if s != [] && IsWhitespace(s[0]) then TrimStart(s[1..]) else s
  }

  function TrimEnd(s: string): string {
    if s != [] && IsWhitespace(s[|s| - 1]) then TrimEnd(s[..|s| - 1]) else s
  }

  function Trim(s: string): string {
    TrimEnd(TrimStart(s))
  }

  lemma {:induction false} TrimStartIs(s: string)
    ensures TrimStart(s) == [] || !IsWhitespace(TrimStart(s)[0])
    ensures |TrimStart(s)| <= |s| && TrimStart(s) == s[|s| - |TrimStart(s)|..]
    ensures forall i :: 0 <= i < |s| - |TrimStart(s)| ==> IsWhitespace(s[i])
  {
    hide IsWhitespace;
    if s != [] && IsWhitespace(s[0]) {
      TrimStartIs(s[1..]);
    }
  }

  lemma {:induction false} TrimEndIs(s: string)
    ensures TrimEnd(s) == [] || !IsWhitespace(TrimEnd(s)[|TrimEnd(s)| - 1])
    ensures |TrimEnd(s)| <= |s| && TrimEnd(s) == s[..|TrimEnd(s)|]
    ensures forall i :: |TrimEnd(s)| <= i < |s| ==> IsWhitespace(s[i])
    decreases |s|
  {
    hide IsWhitespace;
    if s != [] && IsWhitespace(s[|s| - 1]) {
      TrimEndIs(s[..|s| - 1]);
    }
  }

  /** Text neither of whose ends is white space is left as it is. */
  lemma TrimNothing(s: string)
    requires s != [] ==> !IsWhitespace(s[0]) && !IsWhitespace(s[|s| - 1])
    ensures Trim(s) == s
  {
  }

  lemma TrimTrimmed(s: string)
    ensures Trim(Trim(s)) == Trim(s)
  {
    hide IsWhitespace;
    var a := TrimStart(s);
    TrimStartIs(s);
    TrimEndIs(a);
    var b := TrimEnd(a);
    if b != [] {
      assert b[0] == a[0];
    }
    TrimNothing(b);
  }

  function Count(s: string, c: char): nat {
    if s == [] then 0 else (if s[0] == c then 1 else 0) + Count(s[1..], c)
  }

  lemma {:induction false} CountConcat(a: string, b: string, c: char)
    ensures Count(a + b, c) == Count(a, c) + Count(b, c)
  {
    if a == [] {
      assert a + b == b;
    } else {
      CountConcat(a[1..], b, c);
      assert (a + b)[1..] == a[1..] + b;
    }
  }

  lemma {:induction false} CountZero(s: string, c: char)
    ensures Count(s, c) == 0 <==> c !in s
  {
    if s != [] {
      CountZero(s[1..], c);
      assert s == [s[0]] + s[1..];
    }
  }

  lemma {:induction false} TrimStartCounts(s: string, c: char)
    requires !IsWhitespace(c)
    ensures Count(TrimStart(s), c) == Count(s, c)
  {
    if s != [] && IsWhitespace(s[0]) {
      TrimStartCounts(s[1..], c);
    }
  }

  lemma {:induction false} TrimEndCounts(s: string, c: char)
    requires !IsWhitespace(c)
    ensures Count(TrimEnd(s), c) == Count(s, c)
    decreases |s|
  {
    if s != [] && IsWhitespace(s[|s| - 1]) {
      TrimEndCounts(s[..|s| - 1], c);
      CountConcat(s[..|s| - 1], [s[|s| - 1]], c);
      assert s == s[..|s| - 1] + [s[|s| - 1]];
    }
  }

  /** Trimming removes no character that is not white space. */
  lemma TrimCounts(s: string, c: char)
    requires !IsWhitespace(c)
    ensures Count(Trim(s), c) == Count(s, c)
  {
    TrimStartCounts(s, c);
    TrimEndCounts(TrimStart(s), c);
  }

  // ---------------------------------------------------------------- splitting once

  /** Rust's `split_once`. */
  function SplitOnce(s: string, sep: char): Option<(string, string)> {
    if s == [] then None
    else if s[0] == sep then Some(("", s[1..]))
    else match SplitOnce(s[1..], sep)
      case None => None
      case Some((head, tail)) => Some(([s[0]] + head, tail))
  }

  lemma {:induction false} SplitOnceIs(s: string, sep: char)
    ensures match SplitOnce(s, sep)
            case None => sep !in s
            case Some((head, tail)) => sep !in head && s == head + [sep] + tail
  {
    if s != [] {
      SplitOnceIs(s[1..], sep);
      assert s == [s[0]] + s[1..];
    }
  }

  lemma {:induction false} SplitOnceAt(head: string, tail: string, sep: char)
    requires sep !in head
    ensures SplitOnce(head + [sep] + tail, sep) == Some((head, tail))
  {
    var s := head + [sep] + tail;
    if head == [] {
      assert s[1..] == tail;
    } else {
      assert head == [head[0]] + head[1..];
      assert s[1..] == head[1..] + [sep] + tail;
      SplitOnceAt(head[1..], tail, sep);
    }
  }

  function Lower(s: string): string {
    seq(|s|, i requires 0 <= i < |s| => if 'A' <= s[i] <= 'Z' then (s[i] as int + 32) as char else s[i])
  }

  function Upper(s: string): string {
    seq(|s|, i requires 0 <= i < |s| => if 'a' <= s[i] <= 'z' then (s[i] as int - 32) as char else s[i])
  }

  /** Only ASCII letters change case, and one case is as far from the other for all of them. */
  lemma CaseMeaning(s: string, i: nat)
    requires i < |s|
    ensures |Lower(s)| == |Upper(s)| == |s|
    ensures 'A' <= s[i] <= 'Z' ==> Lower(s)[i] as int - 'a' as int == s[i] as int - 'A' as int && Upper(s)[i] == s[i]
    ensures 'a' <= s[i] <= 'z' ==> Upper(s)[i] as int - 'A' as int == s[i] as int - 'a' as int && Lower(s)[i] == s[i]
    ensures !('A' <= s[i] <= 'Z') && !('a' <= s[i] <= 'z') ==> Lower(s)[i] == Upper(s)[i] == s[i]
  {
  }
}
