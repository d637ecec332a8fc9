/**
 Fetching a token's entries page by page: the client's loop, against any
 server, and against the server that answers from a log of changes.
 */
module Paging {
  const U64_MAX: nat := 0xFFFF_FFFF_FFFF_FFFF

  type u64 = x: nat | x <= U64_MAX

  datatype Change<T> = Change(number: u64, body: T)

  datatype Page<T> = Page(entries: seq<Change<T>>, cursor: u64, hasMore: bool)

  // ---------------------------------------------------------------- the client

  /** All the entries of the pages asked for, from a cursor on. */
  function Fetched<T>(serve: u64 -> Page<T>, since: u64): seq<Change<T>>
    decreases U64_MAX - since
  {
    var page := serve(since);
    if !page.hasMore || page.cursor <= since then page.entries
    else page.entries + Fetched(serve, page.cursor)
  }

  /** The loop ends whatever the server says: it goes on only while the cursor moves forward. */
  method Load<T>(serve: u64 -> Page<T>) returns (entries: seq<Change<T>>)
    ensures entries == Fetched(serve, 0)
  {
    entries := [];
    var since: u64 := 0;
    ghost var all := Fetched(serve, 0);
    while true
      invariant all == entries + Fetched(serve, since)
      decreases U64_MAX - since
    {
      var page := serve(since);
      entries := entries + page.entries;
      if !page.hasMore || page.cursor <= since {
        return;
      }
      since := page.cursor;
    }
  }

  // ---------------------------------------------------------------- the server

  /** Changes after a cursor, in the order of the log. */
  function After<T>(log: seq<Change<T>>, since: u64): seq<Change<T>> {
    if log == [] then []
    else (if log[0].number > since then [log[0]] else []) + After(log[1..], since)
  }

  function First<T>(s: seq<T>, n: nat): seq<T> {
    if |s| <= n then s else s[..n]
  }

  /** One extra change is looked up, to learn whether another page follows. */
  function Serve<T>(log: seq<Change<T>>, limit: nat, since: u64): Page<T> {
    var changes := First(After(log, since), limit + 1);
    var entries := First(changes, limit);
    Page(entries, if entries == [] then since else entries[|entries| - 1].number, |changes| > limit)
  }

  // ---------------------------------------------------------------- nothing is missed

  /** Changes are numbered upwards from one. */
  ghost predicate IsLog<T>(log: seq<Change<T>>) {
    && (forall i :: 0 <= i < |log| ==> log[i].number > 0)
    && (forall i, j :: 0 <= i < j < |log| ==> log[i].number < log[j].number)
  }

  /** The cursor once the first k changes have been fetched. */
  function Cursor<T>(log: seq<Change<T>>, k: nat): u64
    requires k <= |log|
  {
    if k == 0 then 0 else log[k - 1].number
  }

  lemma {:induction false} AfterAll<T>(log: seq<Change<T>>, since: u64)
    requires forall i :: 0 <= i < |log| ==> log[i].number > since
    ensures After(log, since) == log
  {
    if log != [] {
      AfterAll(log[1..], since);
      assert log == [log[0]] + log[1..];
    }
  }

  lemma {:induction false} AfterCursor<T>(log: seq<Change<T>>, k: nat)
    requires IsLog(log) && k <= |log|
    ensures After(log, Cursor(log, k)) == log[k..]
  {
    if k == 0 {
      AfterAll(log, 0);
    } else {
      AfterDrops(log, k, log[k - 1].number);
      AfterAll(log[k..], log[k - 1].number);
    }
  }

  lemma {:induction false} AfterDrops<T>(log: seq<Change<T>>, k: nat, since: u64)
    requires k <= |log| && forall i :: 0 <= i < k ==> log[i].number <= since
    ensures After(log, since) == After(log[k..], since)
  {
    if k > 0 {
      AfterDrops(log[1..], k - 1, since);
      assert log[1..][k - 1..] == log[k..];
    }
  }

  lemma ServedFrom<T>(log: seq<Change<T>>, limit: nat, k: nat)
    requires IsLog(log) && limit > 0 && k <= |log|
    ensures var page, next := Serve(log, limit, Cursor(log, k)), if k + limit <= |log| then k + limit else |log|;
            page.entries == log[k..next] && page.cursor == Cursor(log, next) && (page.hasMore <==> k + limit < |log|)
  {
    hide After;
    AfterCursor(log, k);
    var next := if k + limit <= |log| then k + limit else |log|;
    assert First(First(log[k..], limit + 1), limit) == log[k..next];
  }

  /** For every log and page size, the loop gets every change once and in order. */
  lemma {:induction false} LoadsEverything<T>(log: seq<Change<T>>, limit: nat, k: nat)
    requires IsLog(log) && limit > 0 && k <= |log|
    ensures Fetched((since: u64) => Serve(log, limit, since), Cursor(log, k)) == log[k..]
    decreases |log| - k
  {
    hide Serve;
    ServedFrom(log, limit, k);
    if k + limit < |log| {
      LoadsEverything(log, limit, k + limit);
      assert log[k..] == log[k..k + limit] + log[k + limit..];
    }
  }
}
