/** The browser extension's connection to the native host: requests in flight, and how each is answered. */
module NativeHost {
  // Replies, timeouts and disconnects come in any order. Whether connecting or posting throws, and when timers fire, is
  // part of the events.

  import opened Common

  datatype Outcome = Success | Failure(code: string, message: string)

  /** What a message from the host looks like, as far as it is inspected. */
  datatype Message =
    | NotAnObject
    | Fields(id: Option<int>, event: bool, ok: bool, code: Option<string>, text: Option<string>)

  datatype Event =
    | Request(connects: bool, posts: bool)
    | Receive(message: Message)
    | Timeout(id: nat)
    | Disconnect(port: nat, why: string)

  /** Ports are numbered as they are opened; pending ids are in insertion order, as a Map keeps them. */
  datatype State = State(port: Option<nat>, connections: nat, next: nat, pending: seq<nat>, log: seq<(nat, Outcome)>)

  const START := State(None, 0, 1, [], [])

  const TIMED_OUT := Failure("timeout", "Zvault did not answer.")
  const NOT_INSTALLED := Failure("notInstalled", "Zvault is not installed.")

  // ---------------------------------------------------------------- outcomes

  function Lower(s: string): string {
    if s == [] then []
    else [if 'A' <= s[0] <= 'Z' then (s[0] as int + 32) as char else s[0]] + Lower(s[1..])
  }

  predicate Contains(s: string, part: string) {
    part <= s || (s != [] && Contains(s[1..], part))
  }

  /** Why a lost connection ends its requests. */
  function Lost(why: string): Outcome {
    var text := Lower(why);
    var missing := Contains(text, "not found") || Contains(text, "forbidden") || Contains(text, "not allowed");
    Failure(if missing then "notInstalled" else "error",
            if why == "" then "Lost the connection to Zvault." else why)
  }

  function ReplyOutcome(m: Message): Outcome
    requires m.Fields?
  {
    if m.ok then Success
    else Failure(if m.code.Some? then m.code.value else "error",
                 if m.text.Some? then m.text.value else "Zvault could not do that.")
  }

  // ---------------------------------------------------------------- steps

  function Removed(ids: seq<nat>, id: nat): seq<nat> {
    if ids == [] then []
    else if ids[0] == id then ids[1..]
    else [ids[0]] + Removed(ids[1..], id)
  }

  function Finish(s: State, id: nat, result: Outcome): State {
    if id !in s.pending then s
    else s.(pending := Removed(s.pending, id), log := s.log + [(id, result)])
  }

  function FinishAll(s: State, ids: seq<nat>, result: Outcome): State
    decreases ids
  {
    if ids == [] then s else FinishAll(Finish(s, ids[0], result), ids[1..], result)
  }

  predicate Throws(port: Option<nat>, e: Event)
    requires e.Request?
  {
    (port.None? && !e.connects) || !e.posts
  }

  function Opened(s: State, connects: bool): State {
    if s.port.Some? || !connects then s else s.(port := Some(s.connections), connections := s.connections + 1)
  }

  function Step(s: State, e: Event): State {
    match e
    case Request(connects, posts) =>
      var id := s.next;
      var asked := Opened(s.(next := id + 1, pending := s.pending + [id]), connects);
      if Throws(s.port, e) then Finish(asked, id, NOT_INSTALLED) else asked
    case Receive(m) =>
      if m.NotAnObject? || m.id.None? || m.id.value < 0 || m.id.value !in s.pending || m.event then s
      else Finish(s, m.id.value, ReplyOutcome(m))
    case Timeout(id) => Finish(s, id, TIMED_OUT)
    case Disconnect(port, why) =>
      FinishAll(if s.port == Some(port) then s.(port := None) else s, s.pending, Lost(why))
  }

  function After(history: seq<Event>): State {
    if history == [] then START
    else Step(After(history[..|history| - 1]), history[|history| - 1])
  }

  // ---------------------------------------------------------------- one request's fate

  function Requests(history: seq<Event>): nat {
    if history == [] then 0
    else Requests(history[..|history| - 1]) + (if history[|history| - 1].Request? then 1 else 0)
  }

  /** How an event ends a request that is waiting, if it does. */
  function Ending(e: Event, id: nat): Option<Outcome> {
    match e
    case Request(_, _) => None
    case Receive(m) =>
      if m.Fields? && m.id == Some(id as int) && !m.event then Some(ReplyOutcome(m)) else None
    case Timeout(i) => if i == id then Some(TIMED_OUT) else None
    case Disconnect(_, why) => Some(Lost(why))
  }

  /** The port open after a history, and how many have been opened. */
  function Ports(history: seq<Event>): (Option<nat>, nat) {
    if history == [] then (None, 0)
    else
      var (port, count) := Ports(history[..|history| - 1]);
      match history[|history| - 1]
      case Request(true, _) => if port.None? then (Some(count), count + 1) else (port, count)
      case Disconnect(p, _) => (if port == Some(p) then None else port, count)
      case _ => (port, count)
  }

  /**
   What a request is answered with, by the history alone: ids number the requests
   from one, and the first event that ends the request settles it.
   */
  function Fate(history: seq<Event>, id: nat): Option<Outcome> {
    if history == [] then None
    else
      var front, e := history[..|history| - 1], history[|history| - 1];
      var before := Fate(front, id);
      if before.Some? then before
      else if 1 <= id <= Requests(front) then Ending(e, id)
      else if e.Request? && id == Requests(front) + 1 && Throws(Ports(front).0, e) then Some(NOT_INSTALLED)
      else None
  }

  function ResultsOf(log: seq<(nat, Outcome)>, id: nat): seq<Outcome> {
    if log == [] then []
    else ResultsOf(log[..|log| - 1], id) + (if log[|log| - 1].0 == id then [log[|log| - 1].1] else [])
  }

  ghost predicate Distinct(ids: seq<nat>) {
    forall i, j :: 0 <= i < j < |ids| ==> ids[i] != ids[j]
  }

  /** Where one request stands: waiting, or settled by these calls to its callback. */
  ghost predicate Stands(s: State, id: nat, issued: bool, fate: Option<Outcome>) {
    && (id in s.pending <==> issued && fate.None?)
    && ResultsOf(s.log, id) == if fate.Some? then [fate.value] else []
  }

  // ---------------------------------------------------------------- effects of a step

  lemma {:induction false} RemovedMembers(ids: seq<nat>, id: nat)
    requires Distinct(ids)
    ensures Distinct(Removed(ids, id))
    ensures forall x :: x in Removed(ids, id) <==> x in ids && x != id
  {
    if ids != [] {
      var tail := ids[1..];
      assert ids == [ids[0]] + tail;
      assert ids[0] !in tail;
      RemovedMembers(tail, id);
    }
  }

  lemma FinishEffect(s: State, id: nat, result: Outcome, x: nat)
    requires Distinct(s.pending)
    ensures var t := Finish(s, id, result);
            && Distinct(t.pending) && t.next == s.next && t.port == s.port
            && (x in t.pending <==> x in s.pending && x != id)
            && ResultsOf(t.log, x) == ResultsOf(s.log, x) + (if x == id && id in s.pending then [result] else [])
  {
    hide ResultsOf, Removed;
    RemovedMembers(s.pending, id);
    ResultsSnoc(s.log, id, result, x);
    NothingMore(s, x);
  }

  lemma ResultsSnoc(log: seq<(nat, Outcome)>, id: nat, result: Outcome, x: nat)
    ensures ResultsOf(log + [(id, result)], x) == ResultsOf(log, x) + (if x == id then [result] else [])
  {
    assert (log + [(id, result)])[..|log|] == log;
  }

  lemma {:induction false} FinishAllEffect(s: State, ids: seq<nat>, result: Outcome, x: nat)
    requires Distinct(s.pending)
    ensures var t := FinishAll(s, ids, result);
            && Distinct(t.pending) && t.next == s.next && t.port == s.port
            && (x in t.pending <==> x in s.pending && x !in ids)
            && ResultsOf(t.log, x) == ResultsOf(s.log, x) + (if x in ids && x in s.pending then [result] else [])
    decreases ids
  {
    hide Finish, ResultsOf, Distinct;
    NothingMore(s, x);
    if ids != [] {
      var t := Finish(s, ids[0], result);
      FinishEffect(s, ids[0], result, x);
      NothingMore(t, x);
      FinishAllEffect(t, ids[1..], result, x);
      assert x in ids <==> x == ids[0] || x in ids[1..] by {
        assert ids == [ids[0]] + ids[1..];
      }
    }
  }

  lemma NothingMore(s: State, x: nat)
    ensures ResultsOf(s.log, x) + [] == ResultsOf(s.log, x)
  {
  }

  /** A step ends a waiting request exactly as its event says, and touches no settled one. */
  lemma StepOnOld(s: State, e: Event, x: nat)
    requires Distinct(s.pending) && x != s.next
    ensures var t, ending := Step(s, e), Ending(e, x);
            && (x in t.pending <==> x in s.pending && ending.None?)
            && ResultsOf(t.log, x)
               == ResultsOf(s.log, x) + (if x in s.pending && ending.Some? then [ending.value] else [])
  {
    hide Contains, Lower, Lost, ReplyOutcome, ResultsOf;
    NothingMore(s, x);
    match e
    case Request(connects, posts) =>
      var id := s.next;
      var asked := Opened(s.(next := id + 1, pending := s.pending + [id]), connects);
      if Throws(s.port, e) {
        FinishOther(asked, id, NOT_INSTALLED, x);
      }
    case Receive(m) =>
      if m.Fields? && m.id.Some? && m.id.value >= 0 && !m.event {
        FinishEffect(s, m.id.value, ReplyOutcome(m), x);
      }
    case Timeout(id) =>
      FinishEffect(s, id, TIMED_OUT, x);
    case Disconnect(port, why) =>
      FinishAllEffect(if s.port == Some(port) then s.(port := None) else s, s.pending, Lost(why), x);
  }

  lemma {:induction false} RemovedOther(ids: seq<nat>, id: nat, x: nat)
    requires x != id
    ensures x in Removed(ids, id) <==> x in ids
  {
    if ids != [] {
      assert ids == [ids[0]] + ids[1..];
      RemovedOther(ids[1..], id, x);
    }
  }

  lemma FinishOther(s: State, id: nat, result: Outcome, x: nat)
    requires x != id
    ensures var t := Finish(s, id, result);
            (x in t.pending <==> x in s.pending) && ResultsOf(t.log, x) == ResultsOf(s.log, x)
  {
    RemovedOther(s.pending, id, x);
    ResultsSnoc(s.log, id, result, x);
    NothingMore(s, x);
  }

  /** A request waits under the next id, unless connecting or posting throws. */
  lemma StepOnNew(s: State, e: Event)
    requires Distinct(s.pending) && s.next !in s.pending && e.Request?
    ensures var t, x := Step(s, e), s.next;
            && Distinct(t.pending)
            && (x in t.pending <==> !Throws(s.port, e))
            && ResultsOf(t.log, x) == ResultsOf(s.log, x) + (if Throws(s.port, e) then [NOT_INSTALLED] else [])
  {
    NothingMore(s, s.next);
    var asked := Opened(s.(next := s.next + 1, pending := s.pending + [s.next]), e.connects);
    assert Distinct(asked.pending);
    if Throws(s.port, e) {
      FinishEffect(asked, s.next, NOT_INSTALLED, s.next);
    }
  }

  lemma StepOnRest(s: State, e: Event)
    requires Distinct(s.pending) && s.next !in s.pending
    ensures var t := Step(s, e);
            && Distinct(t.pending)
            && t.next == s.next + (if e.Request? then 1 else 0)
            && (t.port, t.connections) == match e
                 case Request(true, _) =>
                   if s.port.None? then (Some(s.connections), s.connections + 1) else (s.port, s.connections)
                 case Disconnect(p, _) => (if s.port == Some(p) then None else s.port, s.connections)
                 case _ => (s.port, s.connections)
  {
    match e
    case Request(_, _) =>
      StepOnNew(s, e);
    case Receive(m) =>
      if m.Fields? && m.id.Some? && m.id.value >= 0 {
        FinishEffect(s, m.id.value, ReplyOutcome(m), 0);
      }
    case Timeout(id) =>
      FinishEffect(s, id, TIMED_OUT, 0);
    case Disconnect(port, why) =>
      var closed := if s.port == Some(port) then s.(port := None) else s;
      FinishAllEffect(closed, s.pending, Lost(why), 0);
      FinishAllKeeps(closed, s.pending, Lost(why));
  }

  lemma {:induction false} FinishAllKeeps(s: State, ids: seq<nat>, result: Outcome)
    ensures FinishAll(s, ids, result).connections == s.connections
    decreases ids
  {
    if ids != [] {
      FinishAllKeeps(Finish(s, ids[0], result), ids[1..], result);
    }
  }

  // ---------------------------------------------------------------- over every run

  /**
   Over every interleaving, ids count the requests, each request is either waiting
   or settled exactly once, and it is settled as its fate says.
   */
  lemma {:induction false} EveryRequestMeetsItsFate(history: seq<Event>, id: nat)
    ensures var s := After(history);
            && s.next == Requests(history) + 1 && Distinct(s.pending)
            && (s.port, s.connections) == Ports(history)
            && (!(1 <= id <= Requests(history)) ==> Fate(history, id).None?)
            && Stands(s, id, 1 <= id <= Requests(history), Fate(history, id))
    decreases |history|
  {
    if history != [] {
      hide Step, Distinct, Ending, Throws;
      var front, e := history[..|history| - 1], history[|history| - 1];
      var s := After(front);
      EveryRequestMeetsItsFate(front, id);
      EveryRequestMeetsItsFate(front, s.next);
      StepOnRest(s, e);
      if id == s.next && e.Request? {
        StepOnNew(s, e);
      } else if id == s.next {
        StepOnUnissued(s, e);
      } else {
        StepOnOld(s, e, id);
      }
      NothingMore(s, id);
      RequestEndsNothing(e, id);
    }
  }

  lemma RequestEndsNothing(e: Event, id: nat)
    ensures e.Request? ==> Ending(e, id).None?
  {
  }

  /** An id not issued yet is neither pending nor resolved by anything but its own request. */
  lemma StepOnUnissued(s: State, e: Event)
    requires Distinct(s.pending) && s.next !in s.pending && !e.Request?
    ensures s.next !in Step(s, e).pending && ResultsOf(Step(s, e).log, s.next) == ResultsOf(s.log, s.next)
  {
    NothingMore(s, s.next);
    match e
    case Receive(m) =>
      if m.Fields? && m.id.Some? && m.id.value >= 0 {
        FinishEffect(s, m.id.value, ReplyOutcome(m), s.next);
      }
    case Timeout(id) =>
      FinishEffect(s, id, TIMED_OUT, s.next);
    case Disconnect(port, why) =>
      FinishAllEffect(if s.port == Some(port) then s.(port := None) else s, s.pending, Lost(why), s.next);
  }

  lemma SomeMember(ids: seq<nat>)
    ensures ids == [] || exists x :: x in ids
  {
    if ids != [] {
      assert ids[0] in ids;
    }
  }

  /** A disconnect of any port leaves nothing waiting. */
  lemma DisconnectLeavesNothing(history: seq<Event>, port: nat, why: string)
    ensures After(history + [Disconnect(port, why)]).pending == []
  {
    var s := After(history);
    var t := After(history + [Disconnect(port, why)]);
    assert (history + [Disconnect(port, why)])[..|history|] == history;
    EveryRequestMeetsItsFate(history, 0);
    hide After, Fate, Stands, Requests, Ports, Distinct;
    forall x ensures x !in t.pending {
      FinishAllEffect(if s.port == Some(port) then s.(port := None) else s, s.pending, Lost(why), x);
    }
    SomeMember(t.pending);
  }

  /** A reply to a request that is not waiting, or never was made, changes nothing. */
  lemma LateReplyChangesNothing(history: seq<Event>, m: Message)
    requires m.Fields? ==> m.id.None? || m.id.value < 0 || m.id.value > Requests(history) ||
                           Fate(history, m.id.value).Some?
    ensures After(history + [Receive(m)]) == After(history)
  {
    assert (history + [Receive(m)])[..|history|] == history;
    if m.Fields? && m.id.Some? && m.id.value >= 0 {
      EveryRequestMeetsItsFate(history, m.id.value);
    }
  }

  // ---------------------------------------------------------------- the answers given

  /** The text contains the part, given in small letters, whatever the case of its own letters. */
  ghost predicate Says(text: string, part: string) {
    exists k :: 0 <= k <= |text| - |part| && MatchesAt(text, part, k)
  }

  ghost predicate MatchesAt(text: string, part: string, k: nat)
    requires k + |part| <= |text|
  {
    forall j :: 0 <= j < |part| ==>
      var c := text[k + j];
      part[j] == if 'A' <= c <= 'Z' then (c as int - 'A' as int + 'a' as int) as char else c
  }

  lemma {:induction false} LowerIs(s: string)
    ensures |Lower(s)| == |s|
    ensures forall i :: 0 <= i < |s| ==>
              Lower(s)[i] == if 'A' <= s[i] <= 'Z' then (s[i] as int - 'A' as int + 'a' as int) as char else s[i]
  {
    if s != [] {
      LowerIs(s[1..]);
    }
  }

  lemma {:induction false} ContainsIs(s: string, part: string)
    ensures Contains(s, part) <==> exists k :: 0 <= k <= |s| && part <= s[k..]
  {
    if part <= s {
      assert s[0..] == s;
    } else if s != [] {
      ContainsIs(s[1..], part);
      forall k | 1 <= k <= |s| ensures s[k..] == s[1..][k - 1..] {
      }
      if Contains(s[1..], part) {
        var k :| 0 <= k <= |s[1..]| && part <= s[1..][k..];
        assert s[k + 1..] == s[1..][k..];
      }
    }
  }

  lemma SaysIsContains(text: string, part: string)
    ensures Says(text, part) <==> Contains(Lower(text), part)
  {
    hide Lower, Contains;
    var low := Lower(text);
    LowerIs(text);
    ContainsIs(low, part);
    forall k | 0 <= k <= |text| - |part| ensures MatchesAt(text, part, k) <==> part <= low[k..] {
      if part <= low[k..] {
        forall j | 0 <= j < |part| ensures part[j] == low[k + j] {
          assert part[j] == low[k..][j];
        }
      }
    }
  }

  lemma {:induction false} RemovedIs(ids: seq<nat>, k: nat)
    requires k < |ids| && Distinct(ids)
    ensures Removed(ids, ids[k]) == ids[..k] + ids[k + 1..]
  {
    if k > 0 {
      RemovedIs(ids[1..], k - 1);
      assert ids[..k] == [ids[0]] + ids[1..][..k - 1];
      Associative([ids[0]], ids[1..][..k - 1], ids[k + 1..]);
    }
  }

  lemma AfterMore(history: seq<Event>, e: Event)
    ensures After(history + [e]) == Step(After(history), e)
    ensures Distinct(After(history).pending) && After(history).next !in After(history).pending
  {
    assert (history + [e])[..|history|] == history;
    EveryRequestMeetsItsFate(history, After(history).next);
  }

  /** The state with one waiting request settled. */
  ghost predicate Settled(s: State, t: State, k: nat, result: Outcome)
    requires k < |s.pending|
  {
    t == s.(pending := s.pending[..k] + s.pending[k + 1..], log := s.log + [(s.pending[k], result)])
  }

  /** In every run, a reply settles the request it answers, once: as it says, with its own code and message if any. */
  lemma ReplySettles(history: seq<Event>, m: Message, k: nat)
    requires k < |After(history).pending|
    requires m.Fields? && m.id == Some(After(history).pending[k] as int) && !m.event
    ensures exists result ::
              && Settled(After(history), After(history + [Receive(m)]), k, result)
              && (result == Success <==> m.ok)
              && (!m.ok ==>
                    && result.code == (if m.code.Some? then m.code.value else "error")
                    && result.message == if m.text.Some? then m.text.value else "Zvault could not do that.")
  {
    hide After, Removed;
    AfterMore(history, Receive(m));
    RemovedIs(After(history).pending, k);
    assert Settled(After(history), After(history + [Receive(m)]), k, ReplyOutcome(m));
  }

  /** In every run, a timer settles its request if that is still waiting. */
  lemma TimeoutSettles(history: seq<Event>, k: nat)
    requires k < |After(history).pending|
    ensures var s := After(history);
            Settled(s, After(history + [Timeout(s.pending[k])]), k, Failure("timeout", "Zvault did not answer."))
  {
    hide After, Removed;
    AfterMore(history, Timeout(After(history).pending[k]));
    RemovedIs(After(history).pending, k);
  }

  /** What settling some ids with one result adds to the log. */
  function Entries(ids: seq<nat>, result: Outcome): seq<(nat, Outcome)> {
    seq(|ids|, i requires 0 <= i < |ids| => (ids[i], result))
  }

  lemma FinishFirst(s: State, result: Outcome)
    requires s.pending != [] && Distinct(s.pending)
    ensures Finish(s, s.pending[0], result)
         == s.(pending := s.pending[1..], log := s.log + [(s.pending[0], result)])
    ensures Distinct(s.pending[1..])
  {
  }

  lemma EntriesMore(log: seq<(nat, Outcome)>, ids: seq<nat>, result: Outcome)
    requires ids != []
    ensures log + Entries(ids, result) == log + [(ids[0], result)] + Entries(ids[1..], result)
  {
  }

  lemma {:induction false} FinishEverything(s: State, result: Outcome)
    requires Distinct(s.pending)
    ensures FinishAll(s, s.pending, result) == s.(pending := [], log := s.log + Entries(s.pending, result))
    decreases |s.pending|
  {
    hide Finish, Distinct, Entries;
    if s.pending == [] {
      NoEntries(s.log, result);
    } else {
      FinishFirst(s, result);
      FinishEverything(Finish(s, s.pending[0], result), result);
      EntriesMore(s.log, s.pending, result);
    }
  }

  lemma NoEntries(log: seq<(nat, Outcome)>, result: Outcome)
    ensures log + Entries([], result) == log
  {
  }

  /** In every run, a lost connection settles all waiting requests, in order, with the reason there is. */
  lemma DisconnectSettles(history: seq<Event>, port: nat, why: string)
    ensures var s := After(history);
            var missing := Says(why, "not found") || Says(why, "forbidden") || Says(why, "not allowed");
            var result := Failure(if missing then "notInstalled" else "error",
                                  if why == "" then "Lost the connection to Zvault." else why);
            After(history + [Disconnect(port, why)])
            == State(if s.port == Some(port) then None else s.port, s.connections, s.next, [],
                     s.log + seq(|s.pending|, i requires 0 <= i < |s.pending| => (s.pending[i], result)))
  {
    hide After, Says, Contains, Lower, FinishAll, Distinct;
    var s := After(history);
    AfterMore(history, Disconnect(port, why));
    SaysIsContains(why, "not found");
    SaysIsContains(why, "forbidden");
    SaysIsContains(why, "not allowed");
    FinishEverything(if s.port == Some(port) then s.(port := None) else s, Lost(why));
  }

  /** In every run, a new request takes the next id and waits, or is settled at once if the host cannot be reached. */
  lemma RequestStarts(history: seq<Event>, connects: bool, posts: bool)
    ensures var s, t := After(history), After(history + [Request(connects, posts)]);
            var reached := (s.port.Some? || connects) && posts;
            && t.next == s.next + 1
            && t.pending == s.pending + (if reached then [s.next] else [])
            && t.log == s.log + (if reached then [] else
                                   [(s.next, Failure("notInstalled", "Zvault is not installed."))])
            && t.port == (if s.port.None? && connects then Some(s.connections) else s.port)
            && t.connections == s.connections + if s.port.None? && connects then 1 else 0
  {
    hide After, Removed;
    var s := After(history);
    AfterMore(history, Request(connects, posts));
    var ids := s.pending + [s.next];
    RemovedIs(ids, |s.pending|);
    assert ids[..|s.pending|] + ids[|s.pending| + 1..] == s.pending == s.pending + [];
    assert s.log + [] == s.log;
  }

  // ---------------------------------------------------------------- the connection

  class Host {
    var port: Option<nat>
    var connections: nat
    var next: nat
    var pending: seq<nat>
    ghost var log: seq<(nat, Outcome)>

    ghost function Now(): State
      reads this
    {
      State(port, connections, next, pending, log)
    }

    constructor ()
      ensures Now() == START
    {
      port, connections, next, pending, log := None, 0, 1, [], [];
    }

    method Request(connects: bool, posts: bool)
      modifies this
      ensures Now() == Step(old(Now()), Event.Request(connects, posts))
    {
      var id := next;
      next := next + 1;
      pending := pending + [id];
      var open := OpenPort(connects);
      if !open || !posts {
        Settle(id, NOT_INSTALLED);
      }
    }

    method OpenPort(connects: bool) returns (open: bool)
      modifies this`port, this`connections
      ensures Now() == Opened(old(Now()), connects)
      ensures open <==> old(port).Some? || connects
    {
      if port.Some? {
        return true;
      }
      if !connects {
        return false;
      }
      port, connections := Some(connections), connections + 1;
      open := true;
    }

    method OnMessage(m: Message)
      modifies this
      ensures Now() == Step(old(Now()), Receive(m))
    {
      if m.NotAnObject? || m.id.None? || m.id.value < 0 || m.id.value !in pending || m.event {
        return;
      }
      Settle(m.id.value, ReplyOutcome(m));
    }

    method OnTimer(id: nat)
      modifies this
      ensures Now() == Step(old(Now()), Timeout(id))
    {
      Settle(id, TIMED_OUT);
    }

    method OnDisconnect(closed: nat, why: string)
      modifies this
      ensures Now() == Step(old(Now()), Disconnect(closed, why))
    {
      if port == Some(closed) {
        port := None;
      }
      var ids, i := pending, 0;
      ghost var start := Now();
      assert ids[0..] == ids;
      while i < |ids|
        invariant 0 <= i <= |ids|
        invariant FinishAll(start, ids, Lost(why)) == FinishAll(Now(), ids[i..], Lost(why))
      {
        DropOfDrop(ids, i, 1);
        Settle(ids[i], Lost(why));
        i := i + 1;
      }
    }

    method Settle(id: nat, result: Outcome)
      modifies this`pending, this`log
      ensures Now() == Finish(old(Now()), id, result)
    {
      if id !in pending {
        return;
      }
      pending := Removed(pending, id);
      log := log + [(id, result)];
    }
  }
}
