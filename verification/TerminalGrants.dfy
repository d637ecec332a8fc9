/** `zv signin` grants, and what it takes for a terminal to be signed in. */
module Terminals {
  import opened Common

  const SIGNIN_IDLE_SECS: nat := 600
  const SIGNIN_MAX_SECS: nat := 3600

  /** Terminal session id to (signed in at, last used at). */
  type Grants = map<int, (nat, nat)>

  function Min(a: nat, b: nat): nat {
    if a < b then a else b
  }

  function Remaining(g: Grants, sid: int, now: nat): Option<nat> {
    if sid !in g then None
    else
      var end := Min(g[sid].1 + SIGNIN_IDLE_SECS, g[sid].0 + SIGNIN_MAX_SECS);
      if now < end then Some(end - now) else None
  }

  datatype Op = SignIn(sid: int) | Revoke(sid: int) | Use(sid: int) | Clear

  datatype Event = Event(at: nat, op: Op)

  function Step(g: Grants, e: Event): Grants {
    match e.op
    case SignIn(sid) => g[sid := (e.at, e.at)]
    case Revoke(sid) => g - {sid}
    case Use(sid) =>
      if Remaining(g, sid, e.at).None? then g - {sid}
      else g[sid := (g[sid].0, e.at)]
    case Clear => map[]
  }

  function After(history: seq<Event>): Grants {
    if history == [] then map[]
    else Step(After(history[..|history| - 1]), history[|history| - 1])
  }

  // ---------------------------------------------------------------- what the history says

  predicate StartsSession(e: Event, sid: int) {
    e.op == SignIn(sid)
  }

  predicate EndsSession(e: Event, sid: int) {
    e.op == Revoke(sid) || e.op == Clear || e.op == SignIn(sid)
  }

  /** The times at which the terminal asked to use its sign-in, from position i on. */
  function UsesFrom(history: seq<Event>, i: nat, sid: int): seq<nat>
    requires i <= |history|
    decreases |history| - i
  {
    if i == |history| then []
    else (if history[i].op == Use(sid) then [history[i].at] else []) + UsesFrom(history, i + 1, sid)
  }

  /** No two neighbouring times are ten minutes apart or more. */
  predicate Steady(times: seq<nat>) {
    forall k :: 0 <= k < |times| - 1 ==> times[k + 1] < times[k] + 600
  }

  /**
   The latest sign-in of the terminal was neither revoked nor cleared, is under an
   hour old, and was used often enough ever since.
   */
  ghost predicate SignedIn(history: seq<Event>, sid: int, now: nat) {
    exists i :: 0 <= i < |history| && SessionFrom(history, i, sid, now)
  }

  ghost predicate SessionFrom(history: seq<Event>, i: nat, sid: int, now: nat)
    requires i < |history|
  {
    && StartsSession(history[i], sid)
    && (forall j :: i < j < |history| ==> !EndsSession(history[j], sid))
    && now < history[i].at + 3600
    && Steady([history[i].at] + UsesFrom(history, i + 1, sid) + [now])
  }

  ghost predicate Timely(history: seq<Event>, now: nat) {
    && (forall i, j :: 0 <= i < j < |history| ==> history[i].at <= history[j].at)
    && forall i :: 0 <= i < |history| ==> history[i].at <= now
  }

  // ---------------------------------------------------------------- the table is a cache of the history

  lemma SteadySnoc(times: seq<nat>, t: nat)
    requires times != []
    ensures Steady(times + [t]) <==> Steady(times) && t < times[|times| - 1] + SIGNIN_IDLE_SECS
  {
    var more := times + [t];
    forall k | 0 <= k < |times| ensures more[k] == times[k] {
    }
    if Steady(more) {
      forall k | 0 <= k < |times| - 1 ensures times[k + 1] < times[k] + SIGNIN_IDLE_SECS {
        assert more[k + 1] < more[k] + SIGNIN_IDLE_SECS;
      }
      assert more[|times|] < more[|times| - 1] + SIGNIN_IDLE_SECS;
    }
  }

  lemma UsesStep(history: seq<Event>, i: nat, sid: int)
    requires i < |history|
    ensures UsesFrom(history, i, sid)
         == (if history[i].op == Use(sid) then [history[i].at] else []) + UsesFrom(history, i + 1, sid)
  {
  }

  lemma {:induction false} UsesSnoc(front: seq<Event>, e: Event, i: nat, sid: int)
    requires i <= |front|
    ensures UsesFrom(front + [e], i, sid)
         == UsesFrom(front, i, sid) + (if e.op == Use(sid) then [e.at] else [])
    decreases |front| - i
  {
    var more := front + [e];
    UsesStep(more, i, sid);
    if i < |front| {
      hide UsesFrom;
      UsesStep(front, i, sid);
      UsesSnoc(front, e, i + 1, sid);
      assert more[i] == front[i];
    }
  }

  /** The sign-in time and the uses of the terminal's session that has not been ended, if any. */
  ghost function Latest(history: seq<Event>, sid: int): Option<seq<nat>> {
    if history == [] then None
    else
      var front, e := Latest(history[..|history| - 1], sid), history[|history| - 1];
      if StartsSession(e, sid) then Some([e.at])
      else if EndsSession(e, sid) then None
      else if e.op == Use(sid) && front.Some? then Some(front.value + [e.at])
      else front
  }

  ghost predicate Open(history: seq<Event>, i: nat, sid: int) {
    i < |history| && StartsSession(history[i], sid) && forall j :: i < j < |history| ==> !EndsSession(history[j], sid)
  }

  lemma {:induction false} LatestIsOpen(history: seq<Event>, sid: int, i: nat)
    requires Open(history, i, sid)
    ensures Latest(history, sid) == Some([history[i].at] + UsesFrom(history, i + 1, sid))
    decreases |history|
  {
    var k := |history| - 1;
    var front, e := history[..k], history[k];
    assert front + [e] == history;
    if i < k {
      assert Open(front, i, sid);
      LatestIsOpen(front, sid, i);
      UsesSnoc(front, e, i + 1, sid);
      assert !EndsSession(e, sid);
      assert front[i] == history[i];
      var uses := UsesFrom(front, i + 1, sid);
      Associative([front[i].at], uses, [e.at]);
      assert uses + [] == uses;
    } else {
      assert [e.at] + UsesFrom(history, k + 1, sid) == [e.at];
    }
  }

  lemma {:induction false} LatestHasStart(history: seq<Event>, sid: int) returns (i: nat)
    requires Latest(history, sid).Some?
    ensures Open(history, i, sid)
    decreases |history|
  {
    var k := |history| - 1;
    if StartsSession(history[k], sid) {
      i := k;
    } else {
      var front := history[..k];
      i := LatestHasStart(front, sid);
      forall j | i < j < |history| ensures !EndsSession(history[j], sid) {
        if j < k {
          assert front[j] == history[j];
        }
      }
    }
  }

  lemma SignedInIsLatest(history: seq<Event>, sid: int, now: nat)
    ensures SignedIn(history, sid, now) <==>
            Latest(history, sid).Some? &&
            var times := Latest(history, sid).value;
            times != [] && now < times[0] + SIGNIN_MAX_SECS && Steady(times + [now])
  {
    hide Latest, UsesFrom, Steady;
    if SignedIn(history, sid, now) {
      var i :| 0 <= i < |history| && SessionFrom(history, i, sid, now);
      assert Open(history, i, sid);
      LatestIsOpen(history, sid, i);
    }
    if Latest(history, sid).Some? {
      var i := LatestHasStart(history, sid);
      LatestIsOpen(history, sid, i);
      var times := Latest(history, sid).value;
      if now < times[0] + SIGNIN_MAX_SECS && Steady(times + [now]) {
        assert SessionFrom(history, i, sid, now);
      }
    }
  }

  function Last(times: seq<nat>): nat
    requires times != []
  {
    times[|times| - 1]
  }

  /** The table row of a session with these times: there only while it was used steadily within the hour. */
  ghost predicate Cached(g: Grants, sid: int, latest: Option<seq<nat>>) {
    if latest.None? then sid !in g
    else
      var times := latest.value;
      && times != []
      && (sid in g <==> Steady(times) && Last(times) < times[0] + SIGNIN_MAX_SECS)
      && (sid in g ==> g[sid] == (times[0], Last(times)))
  }

  lemma {:induction false} LatestBefore(history: seq<Event>, sid: int, now: nat)
    requires Timely(history, now) && Latest(history, sid).Some?
    ensures Latest(history, sid).value != [] && Last(Latest(history, sid).value) <= now
    decreases |history|
  {
    var k := |history| - 1;
    if !StartsSession(history[k], sid) {
      LatestBefore(history[..k], sid, history[k].at);
    }
  }

  lemma UseKeepsCached(g: Grants, sid: int, times: seq<nat>, at: nat)
    requires Cached(g, sid, Some(times)) && times != [] && Last(times) <= at
    ensures Cached(Step(g, Event(at, Use(sid))), sid, Some(times + [at]))
  {
    SteadySnoc(times, at);
  }

  lemma {:induction false} TableIsCache(history: seq<Event>, sid: int, now: nat)
    requires Timely(history, now)
    ensures Cached(After(history), sid, Latest(history, sid))
    decreases |history|
  {
    if history != [] {
      var k := |history| - 1;
      var front, e := history[..k], history[k];
      TableIsCache(front, sid, e.at);
      if e.op == Use(sid) && Latest(front, sid).Some? {
        LatestBefore(front, sid, e.at);
        UseKeepsCached(After(front), sid, Latest(front, sid).value, e.at);
        hide Cached, Step;
      } else {
        hide Steady;
      }
    }
  }

  /** A terminal may use its sign-in exactly when the history says it is signed in. */
  lemma UseMeaning(history: seq<Event>, sid: int, now: nat)
    requires Timely(history, now)
    ensures Remaining(After(history), sid, now).Some? <==> SignedIn(history, sid, now)
    ensures Remaining(After(history), sid, now).Some? ==>
              0 < Remaining(After(history), sid, now).value <= 600
  {
    TableIsCache(history, sid, now);
    SignedInIsLatest(history, sid, now);
    if Latest(history, sid).Some? {
      var times := Latest(history, sid).value;
      LatestBefore(history, sid, now);
      SteadySnoc(times, now);
    }
    hide After, Latest, SignedIn, Steady;
  }

  /** The time left runs to ten minutes after the last use or an hour after the sign-in, whichever comes first. */
  lemma TimeLeft(history: seq<Event>, sid: int, now: nat, i: nat)
    requires Timely(history, now) && i < |history| && SessionFrom(history, i, sid, now)
    ensures var times := [history[i].at] + UsesFrom(history, i + 1, sid);
            var idle, max := times[|times| - 1] + 600, times[0] + 3600;
            Remaining(After(history), sid, now) == Some((if idle < max then idle else max) - now)
  {
    hide After, Latest, Steady, UsesFrom, Remaining, Timely;
    assert Open(history, i, sid);
    LatestIsOpen(history, sid, i);
    TableIsCache(history, sid, now);
    UseMeaning(history, sid, now);
    assert SignedIn(history, sid, now);
    LeftOfRow(After(history), sid, now);
  }

  lemma LeftOfRow(g: Grants, sid: int, now: nat)
    requires Remaining(g, sid, now).Some?
    ensures sid in g
    ensures var idle, max := g[sid].1 + 600, g[sid].0 + 3600;
            Remaining(g, sid, now) == Some((if idle < max then idle else max) - now)
  {
  }

  lemma StepStaysOut(g: Grants, e: Event, sid: int, now: nat)
    requires Remaining(g, sid, e.at).None? && !StartsSession(e, sid) && e.at <= now
    ensures Remaining(Step(g, e), sid, now).None?
  {
  }

  /** Once a terminal is signed out, it stays so until it signs in again. */
  lemma {:induction false} StaysSignedOut(history: seq<Event>, more: seq<Event>, sid: int, since: nat, now: nat)
    requires Timely(history + more, now) && since <= now
    requires forall i :: 0 <= i < |more| ==> since <= more[i].at && !StartsSession(more[i], sid)
    requires Remaining(After(history), sid, since).None?
    ensures Remaining(After(history + more), sid, now).None?
    decreases |more|
  {
    hide Step, StartsSession;
    if more == [] {
      assert history + more == history;
    } else {
      var k := |more| - 1;
      var whole, e := history + more, more[k];
      assert whole[..|whole| - 1] == history + more[..k] && whole[|whole| - 1] == e;
      forall i | 0 <= i < k ensures more[..k][i] == more[i] {
      }
      StaysSignedOut(history, more[..k], sid, since, e.at);
      StepStaysOut(After(history + more[..k]), e, sid, now);
    }
  }

  // ---------------------------------------------------------------- the table

  class TerminalGrants {
    var grants: Grants

    constructor ()
      ensures grants == After([])
    {
      grants := map[];
    }

    method Grant(sid: int, now: nat)
      modifies this
      ensures grants == Step(old(grants), Event(now, SignIn(sid))) == old(grants)[sid := (now, now)]
    {
      grants := grants[sid := (now, now)];
    }

    method Revoke(sid: int) returns (held: bool)
      modifies this
      ensures held == (sid in old(grants))
      ensures forall at :: grants == Step(old(grants), Event(at, Op.Revoke(sid))) == old(grants) - {sid}
    {
      held := sid in grants;
      grants := grants - {sid};
    }

    method Clear()
      modifies this
      ensures forall at :: grants == Step(old(grants), Event(at, Op.Clear)) == map[]
    {
      grants := map[];
    }

    method UseGrant(sid: int, now: nat) returns (ok: bool)
      modifies this
      ensures ok == Remaining(old(grants), sid, now).Some?
      ensures grants == Step(old(grants), Event(now, Use(sid)))
    {
      if Remaining(grants, sid, now).None? {
        grants := grants - {sid};
        return false;
      }
      grants := grants[sid := (grants[sid].0, now)];
      ok := true;
    }
  }
}
