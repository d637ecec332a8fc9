/** Paired agents and the approvals in force, and what an approval means in terms of everything that happened before. */
module AgentRegistry {
  // Ids and token hashes come from the random generator and are inputs here.

  import opened Common
  import opened Text
  import opened Scope

  const SESSION_GRANT_SECS: nat := 900
  const MAX_AGENTS: nat := 32
  const MAX_SCOPES: nat := 64
  const MAX_NAME: nat := 64

  datatype ApprovalMode = AskEveryTime | Session15m | WhileUnlocked

  datatype AgentKind = Agent | Browser

  datatype AgentRecord = AgentRecord(id: string, name: string, kind: AgentKind, tokenHash: string,
                                     createdAt: nat, lastUsedAt: Option<nat>, paused: bool,
                                     approval: ApprovalMode, scopes: seq<ScopePattern>)

  datatype ErrorCode = Unauthorized | Paused | BadRequest | OutOfScope | Locked

  datatype Decision = Allow | Ask(touchId: bool) | Deny(code: ErrorCode)

  datatype Failure = NeedsName | TooManyAgents | TooManyScopes | NoSuchAgent

  type Grant = (SecretRef, nat)

  /** What the registry holds. */
  datatype State = State(agents: seq<AgentRecord>, grants: map<string, seq<Grant>>)

  // ---------------------------------------------------------------- names

  predicate IsControl(c: char) {
    c < ' ' || '\U{007F}' <= c <= '\U{009F}'
  }

  function WithoutControls(s: string): string {
    if s == [] then [] else (if IsControl(s[0]) then [] else [s[0]]) + WithoutControls(s[1..])
  }

  function CleanName(name: string): Option<string> {
    var trimmed := Trim(WithoutControls(name));
    var cut := if |trimmed| <= MAX_NAME then trimmed else trimmed[..MAX_NAME];
    if cut == [] then None else Some(cut)
  }

  /** Control characters are dropped one by one. */
  lemma {:induction false} ControlsAreDropped(a: string, b: string, c: char)
    ensures WithoutControls(a + b) == WithoutControls(a) + WithoutControls(b)
    ensures WithoutControls([c]) == if c < '\U{0020}' || '\U{007F}' <= c < '\U{00A0}' then [] else [c]
  {
    assert [c][1..] == [];
    if a == [] {
      assert a + b == b;
    } else {
      ControlsAreDropped(a[1..], b, c);
      assert (a + b)[1..] == a[1..] + b;
    }
  }

  lemma {:induction false} OnlyControls(s: string)
    ensures forall c :: c in WithoutControls(s) <==> c in s && !IsControl(c)
  {
    if s != [] {
      OnlyControls(s[1..]);
      assert s == [s[0]] + s[1..];
    }
  }

  /** A name is at most 64 characters, no controls, and does not start with white space; only blank text is no name. */
  lemma CleanNameMeaning(name: string)
    ensures CleanName(name).None? <==> forall c :: c in name ==> IsControl(c) || IsWhitespace(c)
    ensures CleanName(name).Some? ==>
              var clean := CleanName(name).value;
              && 1 <= |clean| <= 64 && !IsWhitespace(clean[0])
              && clean <= Trim(WithoutControls(name))
              && (|clean| < 64 ==> clean == Trim(WithoutControls(name)))
  {
    hide IsControl, IsWhitespace, WithoutControls;
    var visible := WithoutControls(name);
    OnlyControls(name);
    var a := TrimStart(visible);
    TrimStartIs(visible);
    TrimEndIs(a);
    if Trim(visible) == [] {
      forall c | c in visible ensures IsWhitespace(c) {
        BlankWhenTrimmed(visible, c);
      }
    } else {
      assert Trim(visible)[0] == a[0] && a[0] in visible;
    }
  }

  lemma BlankWhenTrimmed(s: string, c: char)
    requires Trim(s) == [] && c in s
    ensures IsWhitespace(c)
  {
    hide IsWhitespace;
    TrimStartIs(s);
    TrimEndIs(TrimStart(s));
  }

  // ---------------------------------------------------------------- queries

  /** The position of the first agent with this id. */
  function Position(agents: seq<AgentRecord>, id: string): (i: Option<nat>)
    ensures i.Some? ==> i.value < |agents| && agents[i.value].id == id
    ensures i.Some? ==> forall j :: 0 <= j < i.value ==> agents[j].id != id
    ensures i.None? ==> forall j :: 0 <= j < |agents| ==> agents[j].id != id
  {
    if agents == [] then None
    else if agents[0].id == id then Some(0)
    else
      var rest := Position(agents[1..], id);
      if rest.None? then None else Some(rest.value + 1)
  }

  function Find(agents: seq<AgentRecord>, id: string): Option<AgentRecord> {
    var i := Position(agents, id);
    if i.None? then None else Some(agents[i.value])
  }

  predicate HasGrant(grants: seq<Grant>, r: SecretRef, now: nat) {
    exists i :: 0 <= i < |grants| && grants[i].0 == r && now < grants[i].1
  }

  predicate GrantedOne(s: State, id: string, r: SecretRef, now: nat) {
    id in s.grants && HasGrant(s.grants[id], r, now)
  }

  predicate Granted(s: State, id: string, refs: seq<SecretRef>, now: nat) {
    id in s.grants && forall i :: 0 <= i < |refs| ==> HasGrant(s.grants[id], refs[i], now)
  }

  predicate InScope(agent: AgentRecord, refs: seq<SecretRef>) {
    forall i :: 0 <= i < |refs| ==> exists j :: 0 <= j < |agent.scopes| && agent.scopes[j].Allows(refs[i])
  }

  function Decide(s: State, id: string, refs: seq<SecretRef>, unlocked: bool, now: nat): Decision {
    match Find(s.agents, id)
    case None => Deny(Unauthorized)
    case Some(agent) =>
      if agent.paused then Deny(Paused)
      else if refs == [] then Deny(BadRequest)
      else if !InScope(agent, refs) then Deny(OutOfScope)
      else if !unlocked then Deny(Locked)
      else match agent.approval
        case WhileUnlocked => Allow
        case Session15m => if Granted(s, id, refs, now) then Allow else Ask(false)
        case AskEveryTime => Ask(true)
  }

  // ---------------------------------------------------------------- changes

  function PairResult(s: State, record: AgentRecord): Result<AgentRecord, Failure> {
    var name := CleanName(record.name);
    if name.None? then Err(NeedsName)
    else if |s.agents| >= MAX_AGENTS then Err(TooManyAgents)
    else if |record.scopes| > MAX_SCOPES then Err(TooManyScopes)
    else Ok(record.(name := name.value, paused := false, lastUsedAt := None))
  }

  function AfterPair(s: State, record: AgentRecord): State {
    match PairResult(s, record)
    case Ok(agent) => s.(agents := s.agents + [agent])
    case Err(_) => s
  }

  function Without(agents: seq<AgentRecord>, id: string): seq<AgentRecord> {
    var i := Position(agents, id);
    if i.None? then agents else agents[..i.value] + agents[i.value + 1..]
  }

  function AfterUnpair(s: State, id: string): State {
    State(Without(s.agents, id), s.grants - {id})
  }

  datatype Settings = Settings(name: Option<string>, paused: Option<bool>, approval: Option<ApprovalMode>,
                               scopes: Option<seq<ScopePattern>>)
  {
    /** The settings themselves are acceptable, whoever they are for. */
    predicate Acceptable() {
      (scopes.Some? ==> |scopes.value| <= MAX_SCOPES) && (name.Some? ==> CleanName(name.value).Some?)
    }

    function AppliedTo(agent: AgentRecord): AgentRecord
      requires Acceptable()
    {
      agent.(name := if name.Some? then CleanName(name.value).value else agent.name,
             paused := if paused.Some? then paused.value else agent.paused,
             approval := if approval.Some? then approval.value else agent.approval,
             scopes := if scopes.Some? then scopes.value else agent.scopes)
    }
  }

  /** The settings given replace the agent's, the name cleaned, and nothing else is different. */
  ghost predicate Changed(before: AgentRecord, settings: Settings, after: AgentRecord) {
    && (if settings.name.Some? then CleanName(settings.name.value) == Some(after.name) else after.name == before.name)
    && after.paused == (if settings.paused.Some? then settings.paused.value else before.paused)
    && after.approval == (if settings.approval.Some? then settings.approval.value else before.approval)
    && after.scopes == (if settings.scopes.Some? then settings.scopes.value else before.scopes)
    && (after.id, after.kind, after.tokenHash) == (before.id, before.kind, before.tokenHash)
    && (after.createdAt, after.lastUsedAt) == (before.createdAt, before.lastUsedAt)
  }

  function UpdateResult(s: State, id: string, settings: Settings): Result<AgentRecord, Failure> {
    if settings.scopes.Some? && |settings.scopes.value| > MAX_SCOPES then Err(TooManyScopes)
    else if settings.name.Some? && CleanName(settings.name.value).None? then Err(NeedsName)
    else match Find(s.agents, id)
      case None => Err(NoSuchAgent)
      case Some(agent) => Ok(settings.AppliedTo(agent))
  }

  function AfterUpdate(s: State, id: string, settings: Settings): State {
    match UpdateResult(s, id, settings)
    case Ok(agent) => State(s.agents[Position(s.agents, id).value := agent], s.grants - {id})
    case Err(_) => s
  }

  /** The grants that outlive a new approval: neither expired nor approved anew. */
  function Retained(grants: seq<Grant>, refs: seq<SecretRef>, now: nat): seq<Grant> {
    if grants == [] then []
    else
      (if now < grants[0].1 && grants[0].0 !in refs then [grants[0]] else []) + Retained(grants[1..], refs, now)
  }

  function Issued(refs: seq<SecretRef>, expires: nat): seq<Grant> {
    seq(|refs|, i requires 0 <= i < |refs| => (refs[i], expires))
  }

  function AfterApproved(s: State, id: string, refs: seq<SecretRef>, now: nat): State {
    match Find(s.agents, id)
    case None => s
    case Some(agent) =>
      if agent.approval != Session15m then s
      else
        var held := if id in s.grants then s.grants[id] else [];
        s.(grants := s.grants[id := Retained(held, refs, now) + Issued(refs, now + SESSION_GRANT_SECS)])
  }

  function AfterTouch(s: State, id: string, now: nat): State {
    var i := Position(s.agents, id);
    if i.None? then s
    else s.(agents := s.agents[i.value := s.agents[i.value].(lastUsedAt := Some(now))])
  }

  // ---------------------------------------------------------------- histories

  datatype Op =
    | Pair(record: AgentRecord)
    | Unpair(id: string)
    | Update(id: string, settings: Settings)
    | Approve(id: string, refs: seq<SecretRef>)
    | Touch(id: string)
    | Lock

  datatype Event = Event(at: nat, op: Op)

  function Step(s: State, e: Event): State {
    match e.op
    case Pair(record) => AfterPair(s, record)
    case Unpair(id) => AfterUnpair(s, id)
    case Update(id, settings) => AfterUpdate(s, id, settings)
    case Approve(id, refs) => AfterApproved(s, id, refs, e.at)
    case Touch(id) => AfterTouch(s, id, e.at)
    case Lock => s.(grants := map[])
  }

  /** The registry after a history, starting from saved agents: approvals are never saved. */
  function After(saved: seq<AgentRecord>, history: seq<Event>): State {
    if history == [] then State(saved, map[])
    else Step(After(saved, history[..|history| - 1]), history[|history| - 1])
  }

  predicate Mentions(e: Event, id: string) {
    match e.op
    case Pair(record) => record.id == id
    case Unpair(i) => i == id
    case Update(i, _) => i == id
    case Approve(i, _) => i == id
    case Touch(i) => i == id
    case Lock => false
  }

  ghost predicate UniqueIds(agents: seq<AgentRecord>) {
    forall i, j :: 0 <= i < j < |agents| ==> agents[i].id != agents[j].id
  }

  /** The clock does not go back, and a new agent's id was never seen before. */
  ghost predicate Proper(saved: seq<AgentRecord>, history: seq<Event>) {
    && UniqueIds(saved)
    && (forall i, j :: 0 <= i < j < |history| ==> history[i].at <= history[j].at)
    && forall j :: 0 <= j < |history| && history[j].op.Pair? ==>
         && Find(saved, history[j].op.record.id).None?
         && forall i :: 0 <= i < j ==> !Mentions(history[i], history[j].op.record.id)
  }

  /** An event that ends every approval of this agent. */
  predicate Ends(e: Event, id: string) {
    match e.op
    case Unpair(i) => i == id
    case Update(i, settings) => i == id && settings.Acceptable()
    case Lock => true
    case _ => false
  }

  predicate Approves(e: Event, id: string, r: SecretRef) {
    e.op.Approve? && e.op.id == id && r in e.op.refs
  }

  /** r was approved for the agent less than 900 seconds ago, and nothing has ended that since. */
  ghost predicate ApprovedLately(history: seq<Event>, id: string, r: SecretRef, now: nat) {
    exists k :: 0 <= k < |history| && Approves(history[k], id, r) && now < history[k].at + 900 &&
                forall j :: k < j < |history| ==> !Ends(history[j], id)
  }

  // ---------------------------------------------------------------- finding agents

  lemma FindAppended(agents: seq<AgentRecord>, a: AgentRecord, id: string)
    requires UniqueIds(agents) && Find(agents, a.id).None?
    ensures UniqueIds(agents + [a])
    ensures Find(agents + [a], id) == if id == a.id then Some(a) else Find(agents, id)
  {
    var more := agents + [a];
    assert more[|agents|] == a;
    forall i | 0 <= i < |agents| ensures more[i] == agents[i] {
    }
    if Find(agents, id).Some? {
      assert more[Position(agents, id).value].id == id;
    }
  }

  lemma FindWithout(agents: seq<AgentRecord>, gone: string, id: string)
    requires UniqueIds(agents)
    ensures UniqueIds(Without(agents, gone))
    ensures Find(Without(agents, gone), id) == if id == gone then None else Find(agents, id)
  {
    var p := Position(agents, gone);
    if p.Some? {
      var k := p.value;
      var fewer := Without(agents, gone);
      forall i | 0 <= i < |fewer|
        ensures fewer[i] == agents[if i < k then i else i + 1]
      {
      }
      assert UniqueIds(fewer);
      if id != gone && Find(agents, id).Some? {
        var i := Position(agents, id).value;
        assert fewer[if i < k then i else i - 1] == agents[i];
      }
    }
  }

  lemma FindReplaced(agents: seq<AgentRecord>, k: nat, a: AgentRecord, id: string)
    requires UniqueIds(agents) && k < |agents| && a.id == agents[k].id
    ensures UniqueIds(agents[k := a])
    ensures Find(agents[k := a], id) == if id == a.id then Some(a) else Find(agents, id)
  {
    var changed := agents[k := a];
    forall i | 0 <= i < |agents| ensures changed[i].id == agents[i].id {
    }
    if id != a.id && Find(agents, id).Some? {
      var i := Position(agents, id).value;
      assert changed[i] == agents[i];
    }
  }

  // ---------------------------------------------------------------- what every step keeps

  /** Agents keep unique ids and come from the history; grants belong to agents in session mode. */
  ghost predicate Sound(saved: seq<AgentRecord>, history: seq<Event>, s: State) {
    && UniqueIds(s.agents)
    && (forall id :: Find(s.agents, id).Some? ==>
          Find(saved, id).Some? || exists j :: 0 <= j < |history| && Mentions(history[j], id))
    && forall id :: id in s.grants ==>
          Find(s.agents, id).Some? && Find(s.agents, id).value.approval == Session15m
  }

  /** How one step changes what is found under an id, given the step's own id is new when pairing. */
  lemma StepFinds(s: State, e: Event, id: string)
    requires UniqueIds(s.agents)
    requires e.op.Pair? ==> Find(s.agents, e.op.record.id).None?
    ensures UniqueIds(Step(s, e).agents)
    ensures var before, after := Find(s.agents, id), Find(Step(s, e).agents, id);
            && (!Mentions(e, id) ==> after == before)
            && (after.Some? && before.None? ==> e.op.Pair?)
            && (e.op.Approve? || e.op.Lock? ==> after == before)
            && (e.op == Unpair(id) ==> after.None?)
            && (e.op != Unpair(id) && before.Some? ==> after.Some?)
            && (after.Some? && before.Some? && !Ends(e, id) ==> after.value.approval == before.value.approval)
  {
    match e.op
    case Pair(record) =>
      if PairResult(s, record).Ok? {
        FindAppended(s.agents, PairResult(s, record).value, id);
      }
    case Unpair(gone) =>
      FindWithout(s.agents, gone, id);
    case Update(i, settings) =>
      if UpdateResult(s, i, settings).Ok? {
        FindReplaced(s.agents, Position(s.agents, i).value, UpdateResult(s, i, settings).value, id);
      }
    case Touch(i) =>
      var p := Position(s.agents, i);
      if p.Some? {
        FindReplaced(s.agents, p.value, s.agents[p.value].(lastUsedAt := Some(e.at)), id);
      }
    case Approve(_, _) =>
    case Lock =>
  }

  lemma NewIdIsFree(saved: seq<AgentRecord>, history: seq<Event>, s: State)
    requires history != [] && Proper(saved, history)
    requires Sound(saved, history[..|history| - 1], s)
    ensures var e := history[|history| - 1];
            e.op.Pair? ==> Find(s.agents, e.op.record.id).None?
  {
    var k := |history| - 1;
    forall i | 0 <= i < k ensures history[..k][i] == history[i] {
    }
  }

  lemma ProperPrefix(saved: seq<AgentRecord>, history: seq<Event>)
    requires history != [] && Proper(saved, history)
    ensures Proper(saved, history[..|history| - 1])
    ensures forall i :: 0 <= i < |history| - 1 ==> history[i].at <= history[|history| - 1].at
  {
    var k := |history| - 1;
    var front := history[..k];
    forall i | 0 <= i < k ensures front[i] == history[i] {
    }
  }

  lemma {:induction false} AlwaysSound(saved: seq<AgentRecord>, history: seq<Event>)
    requires Proper(saved, history)
    ensures Sound(saved, history, After(saved, history))
    decreases |history|
  {
    if history != [] {
      hide Step, Find, Proper, UniqueIds;
      var front, e := history[..|history| - 1], history[|history| - 1];
      var s := After(saved, front);
      ProperPrefix(saved, history);
      AlwaysSound(saved, front);
      NewIdIsFree(saved, history, s);
      StepKeepsSound(saved, front, s, e);
      assert front + [e] == history;
    }
  }

  lemma StepKeepsSound(saved: seq<AgentRecord>, front: seq<Event>, s: State, e: Event)
    requires Sound(saved, front, s)
    requires e.op.Pair? ==> Find(s.agents, e.op.record.id).None?
    ensures Sound(saved, front + [e], Step(s, e))
  {
    var s', more := Step(s, e), front + [e];
    forall id | Find(s'.agents, id).Some?
      ensures Find(saved, id).Some? || exists j :: 0 <= j < |more| && Mentions(more[j], id)
    {
      StepFinds(s, e, id);
      if Mentions(e, id) {
        assert Mentions(more[|front|], id);
      } else if Find(saved, id).None? {
        var j :| 0 <= j < |front| && Mentions(front[j], id);
        assert Mentions(more[j], id);
      }
    }
    forall id | id in s'.grants
      ensures Find(s'.agents, id).Some? && Find(s'.agents, id).value.approval == Session15m
    {
      StepFinds(s, e, id);
      GrantsFollow(s, e, id);
    }
    StepFinds(s, e, "");
  }

  /** A step leaves grants under an id only if there were some, or it approved for an agent in session mode. */
  lemma GrantsFollow(s: State, e: Event, id: string)
    requires id in Step(s, e).grants
    ensures if id in s.grants then !Ends(e, id) || Step(s, e) == s
            else e.op.Approve? && Find(s.agents, id).Some? && Find(s.agents, id).value.approval == Session15m
  {
  }

  // ---------------------------------------------------------------- grants remember approvals

  lemma ApprovedLatelyStep(front: seq<Event>, e: Event, id: string, r: SecretRef, now: nat)
    requires forall i :: 0 <= i < |front| ==> front[i].at <= e.at
    ensures ApprovedLately(front + [e], id, r, now) <==>
            if Ends(e, id) then false
            else if Approves(e, id, r) then now < e.at + SESSION_GRANT_SECS
            else ApprovedLately(front, id, r, now)
  {
    var more := front + [e];
    assert more[|front|] == e;
    forall i | 0 <= i < |front| ensures more[i] == front[i] {
    }
    if ApprovedLately(more, id, r, now) {
      var k :| 0 <= k < |more| && Approves(more[k], id, r) && now < more[k].at + SESSION_GRANT_SECS &&
               forall j :: k < j < |more| ==> !Ends(more[j], id);
      if k < |front| {
        assert front[k] == more[k];
        assert !Ends(more[|front|], id);
        assert forall j :: k < j < |front| ==> !Ends(front[j], id);
      }
    }
    if !Ends(e, id) && !Approves(e, id, r) && ApprovedLately(front, id, r, now) {
      var k :| 0 <= k < |front| && Approves(front[k], id, r) && now < front[k].at + SESSION_GRANT_SECS &&
               forall j :: k < j < |front| ==> !Ends(front[j], id);
      assert Approves(more[k], id, r);
    }
    if !Ends(e, id) && Approves(e, id, r) && now < e.at + SESSION_GRANT_SECS {
      assert Approves(more[|front|], id, r);
    }
  }

  lemma {:induction false} RetainedHas(grants: seq<Grant>, refs: seq<SecretRef>, at: nat, r: SecretRef, now: nat)
    requires at <= now
    ensures HasGrant(Retained(grants, refs, at), r, now) <==> HasGrant(grants, r, now) && r !in refs
  {
    if grants != [] {
      RetainedHas(grants[1..], refs, at, r, now);
      HasGrantConcat([grants[0]], grants[1..], r, now);
      assert [grants[0]] + grants[1..] == grants;
      var kept := if at < grants[0].1 && grants[0].0 !in refs then [grants[0]] else [];
      HasGrantConcat(kept, Retained(grants[1..], refs, at), r, now);
    }
  }

  lemma HasGrantConcat(a: seq<Grant>, b: seq<Grant>, r: SecretRef, now: nat)
    ensures HasGrant(a + b, r, now) <==> HasGrant(a, r, now) || HasGrant(b, r, now)
  {
    var all := a + b;
    if HasGrant(a, r, now) {
      var i :| 0 <= i < |a| && a[i].0 == r && now < a[i].1;
      assert all[i] == a[i];
    }
    if HasGrant(b, r, now) {
      var i :| 0 <= i < |b| && b[i].0 == r && now < b[i].1;
      assert all[|a| + i] == b[i];
    }
    if HasGrant(all, r, now) {
      var i :| 0 <= i < |all| && all[i].0 == r && now < all[i].1;
      assert if i < |a| then all[i] == a[i] else all[i] == b[i - |a|];
    }
  }

  lemma IssuedHas(refs: seq<SecretRef>, expires: nat, r: SecretRef, now: nat)
    ensures HasGrant(Issued(refs, expires), r, now) <==> r in refs && now < expires
  {
    var issued := Issued(refs, expires);
    if r in refs && now < expires {
      var i :| 0 <= i < |refs| && refs[i] == r;
      assert issued[i] == (r, expires);
    }
  }

  /** What a step does to one grant of an agent that stays in session mode. */
  lemma StepGrants(s: State, e: Event, id: string, r: SecretRef, now: nat)
    requires e.at <= now
    requires e.op == Approve(id, if e.op.Approve? then e.op.refs else []) ==>
               Find(s.agents, id).Some? && Find(s.agents, id).value.approval == Session15m
    requires e.op.Update? && e.op.id == id ==> Find(s.agents, id).Some?
    ensures GrantedOne(Step(s, e), id, r, now) <==>
            if Ends(e, id) then false
            else if Approves(e, id, r) then now < e.at + SESSION_GRANT_SECS
            else GrantedOne(s, id, r, now)
  {
    hide Retained, Issued, HasGrant;
    if e.op.Approve? && e.op.id == id {
      var held := if id in s.grants then s.grants[id] else [];
      RetainedHas(held, e.op.refs, e.at, r, now);
      IssuedHas(e.op.refs, e.at + SESSION_GRANT_SECS, r, now);
      HasGrantConcat(Retained(held, e.op.refs, e.at), Issued(e.op.refs, e.at + SESSION_GRANT_SECS), r, now);
      NoGrants(r, now);
    }
  }

  lemma NoGrants(r: SecretRef, now: nat)
    ensures !HasGrant([], r, now)
  {
  }

  /** For an agent in session mode, holding a live grant is having been approved lately. */
  lemma {:induction false} GrantsAreApprovals(saved: seq<AgentRecord>, history: seq<Event>, id: string, r: SecretRef,
                                              now: nat)
    requires Proper(saved, history)
    requires forall i :: 0 <= i < |history| ==> history[i].at <= now
    requires var s := After(saved, history);
             Find(s.agents, id).Some? && Find(s.agents, id).value.approval == Session15m
    ensures GrantedOne(After(saved, history), id, r, now) <==> ApprovedLately(history, id, r, now)
    decreases |history|
  {
    hide Find, Proper, GrantedOne, ApprovedLately, Sound, UniqueIds, Step;
    if history == [] {
      NothingAtStart(saved, id, r, now);
    } else {
      var k := |history| - 1;
      var front, e := history[..k], history[k];
      var s := After(saved, front);
      assert front + [e] == history;
      ProperPrefix(saved, history);
      AlwaysSound(saved, front);
      NewIdIsFree(saved, history, s);
      SoundUnique(saved, front, s);
      StepFinds(s, e, id);
      ApprovedLatelyStep(front, e, id, r, now);
      if Find(s.agents, id).None? {
        // Only pairing can bring the agent into being, under an id never mentioned before.
        NewcomerHasNothing(saved, history, s, id, r, now);
      } else {
        if Find(s.agents, id).value.approval == Session15m {
          GrantsAreApprovals(saved, front, id, r, now);
        }
        StepGrants(s, e, id, r, now);
      }
    }
  }

  lemma NothingAtStart(saved: seq<AgentRecord>, id: string, r: SecretRef, now: nat)
    ensures !GrantedOne(After(saved, []), id, r, now) && !ApprovedLately([], id, r, now)
  {
  }

  lemma SoundUnique(saved: seq<AgentRecord>, history: seq<Event>, s: State)
    requires Sound(saved, history, s)
    ensures UniqueIds(s.agents)
  {
  }

  lemma NewcomerHasNothing(saved: seq<AgentRecord>, history: seq<Event>, s: State, id: string, r: SecretRef, now: nat)
    requires history != [] && Proper(saved, history)
    requires Sound(saved, history[..|history| - 1], s) && Find(s.agents, id).None?
    requires var e := history[|history| - 1];
             e.op.Pair? && Mentions(e, id)
    ensures var e := history[|history| - 1];
            !GrantedOne(Step(s, e), id, r, now) && !ApprovedLately(history[..|history| - 1], id, r, now)
  {
    hide Find;
    var k := |history| - 1;
    forall i | 0 <= i < k ensures !Mentions(history[..k][i], id) {
    }
  }

  /** Some reference asked for is allowed by none of the agent's scopes. */
  ghost predicate Overreaches(agent: AgentRecord, refs: seq<SecretRef>) {
    exists r :: r in refs && forall p :: p in agent.scopes ==> !p.Allows(r)
  }

  lemma InScopeOrNot(agent: AgentRecord, refs: seq<SecretRef>)
    ensures InScope(agent, refs) <==> !Overreaches(agent, refs)
  {
    if !InScope(agent, refs) {
      var i :| 0 <= i < |refs| && forall j :: 0 <= j < |agent.scopes| ==> !agent.scopes[j].Allows(refs[i]);
      assert refs[i] in refs;
    }
  }

  /** With unique ids, what is found under an id is the agent with that id. */
  lemma FoundIsThatAgent(agents: seq<AgentRecord>, id: string, agent: AgentRecord)
    requires UniqueIds(agents)
    ensures Find(agents, id) == Some(agent) <==> agent in agents && agent.id == id
    ensures Find(agents, id).None? <==> forall a :: a in agents ==> a.id != id
  {
    if agent in agents && agent.id == id {
      var i :| 0 <= i < |agents| && agents[i] == agent;
      assert Position(agents, id) == Some(i);
    }
  }

  /** Which request is stopped before its approval mode is looked at, in the order of the checks. */
  lemma RefusalMeaning(saved: seq<AgentRecord>, history: seq<Event>, agent: AgentRecord, refs: seq<SecretRef>,
                       unlocked: bool, now: nat)
    requires Proper(saved, history)
    ensures var s := After(saved, history);
            var d := Decide(s, agent.id, refs, unlocked, now);
            && (d == Deny(Unauthorized) <==> forall a :: a in s.agents ==> a.id != agent.id)
            && (agent in s.agents ==>
                  && (d == Deny(Paused) <==> agent.paused)
                  && (d == Deny(BadRequest) <==> !agent.paused && refs == [])
                  && (d == Deny(OutOfScope) <==> !agent.paused && Overreaches(agent, refs))
                  && (d == Deny(Locked) <==>
                        !agent.paused && refs != [] && !Overreaches(agent, refs) && !unlocked))
  {
    hide Proper, InScope, Overreaches, Granted, After, Find, UniqueIds;
    var s := After(saved, history);
    AlwaysSound(saved, history);
    SoundUnique(saved, history, s);
    FoundIsThatAgent(s.agents, agent.id, agent);
    InScopeOrNot(agent, refs);
    NothingOverreaches(agent);
  }

  lemma NothingOverreaches(agent: AgentRecord)
    ensures !Overreaches(agent, [])
  {
  }

  /** Nothing stops the request before the approval mode is looked at. */
  ghost predicate Admissible(agent: AgentRecord, refs: seq<SecretRef>, unlocked: bool) {
    !agent.paused && refs != [] && !Overreaches(agent, refs) && unlocked
  }

  /**
   The whole decision in terms of the history: a session-mode agent is let through
   exactly when every reference asked for was approved for it in the last fifteen
   minutes, with no lock and no change to the agent since.
   */
  lemma DecisionMeaning(saved: seq<AgentRecord>, history: seq<Event>, agent: AgentRecord, refs: seq<SecretRef>,
                        unlocked: bool, now: nat)
    requires Proper(saved, history)
    requires forall i :: 0 <= i < |history| ==> history[i].at <= now
    requires agent in After(saved, history).agents
    ensures var d := Decide(After(saved, history), agent.id, refs, unlocked, now);
            var lately := forall r :: r in refs ==> ApprovedLately(history, agent.id, r, now);
            && (d == Allow <==>
                  && Admissible(agent, refs, unlocked)
                  && (agent.approval == WhileUnlocked || (agent.approval == Session15m && lately)))
            && (d == Ask(true) <==> Admissible(agent, refs, unlocked) && agent.approval == AskEveryTime)
            && (d == Ask(false) <==>
                  Admissible(agent, refs, unlocked) && agent.approval == Session15m && !lately)
  {
    hide Proper, ApprovedLately, InScope, Overreaches, Granted, After, Find, UniqueIds, HasGrant;
    var s := After(saved, history);
    AlwaysSound(saved, history);
    SoundUnique(saved, history, s);
    FoundIsThatAgent(s.agents, agent.id, agent);
    InScopeOrNot(agent, refs);
    if agent.approval == Session15m && refs != [] {
      forall r | r in refs ensures GrantedOne(s, agent.id, r, now) <==> ApprovedLately(history, agent.id, r, now) {
        GrantsAreApprovals(saved, history, agent.id, r, now);
      }
      GrantedEach(s, agent.id, refs, now);
    }
  }

  lemma GrantedEach(s: State, id: string, refs: seq<SecretRef>, now: nat)
    requires refs != []
    ensures Granted(s, id, refs, now) <==> forall r :: r in refs ==> GrantedOne(s, id, r, now)
  {
    if forall r :: r in refs ==> GrantedOne(s, id, r, now) {
      assert GrantedOne(s, id, refs[0], now);
      forall i | 0 <= i < |refs| ensures HasGrant(s.grants[id], refs[i], now) {
        assert GrantedOne(s, id, refs[i], now);
      }
    }
  }

  // ---------------------------------------------------------------- the registry

  class Registry {
    var agents: seq<AgentRecord>
    var grants: map<string, seq<Grant>>

    function Now(): State
      reads this
    {
      State(agents, grants)
    }

    constructor (saved: seq<AgentRecord>)
      ensures Now() == After(saved, [])
    {
      agents := saved;
      grants := map[];
    }

    method PairKind(record: AgentRecord) returns (r: Result<AgentRecord, Failure>)
      modifies this
      ensures r == PairResult(old(Now()), record)
      ensures r == Err(NeedsName) <==> CleanName(record.name).None?
      ensures r == Err(TooManyAgents) <==> CleanName(record.name).Some? && |old(agents)| >= 32
      ensures r == Err(TooManyScopes) <==>
              CleanName(record.name).Some? && |old(agents)| < 32 && |record.scopes| > 64
      ensures r.Ok? ==>
                && CleanName(record.name) == Some(r.value.name)
                && r.value == AgentRecord(record.id, r.value.name, record.kind, record.tokenHash, record.createdAt,
                                          None, false, record.approval, record.scopes)
      ensures grants == old(grants) && agents == old(agents) + if r.Ok? then [r.value] else []
      ensures forall at :: Now() == Step(old(Now()), Event(at, Op.Pair(record)))
    {
      var name := CleanName(record.name);
      if name.None? {
        return Err(NeedsName);
      }
      if |agents| >= MAX_AGENTS {
        return Err(TooManyAgents);
      }
      if |record.scopes| > MAX_SCOPES {
        return Err(TooManyScopes);
      }
      var agent := AgentRecord(record.id, name.value, record.kind, record.tokenHash, record.createdAt, None, false,
                               record.approval, record.scopes);
      agents := agents + [agent];
      r := Ok(agent);
    }

    method Unpair(id: string) returns (r: Option<AgentRecord>)
      modifies this
      ensures r == Find(old(agents), id)
      ensures grants == old(grants) - {id}
      ensures r.None? ==> agents == old(agents) && forall a :: a in agents ==> a.id != id
      ensures r.Some? ==> exists i ::
                && 0 <= i < |old(agents)| && old(agents)[i] == r.value && r.value.id == id
                && agents == old(agents)[..i] + old(agents)[i + 1..]
      ensures forall at :: Now() == Step(old(Now()), Event(at, Op.Unpair(id)))
    {
      grants := grants - {id};
      var i := Position(agents, id);
      if i.None? {
        return None;
      }
      r := Some(agents[i.value]);
      agents := agents[..i.value] + agents[i.value + 1..];
    }

    method Update(id: string, settings: Settings) returns (r: Result<AgentRecord, Failure>)
      modifies this
      ensures r == UpdateResult(old(Now()), id, settings)
      ensures r == Err(TooManyScopes) <==> settings.scopes.Some? && |settings.scopes.value| > 64
      ensures r == Err(NeedsName) <==>
              && (settings.scopes.Some? ==> |settings.scopes.value| <= 64)
              && settings.name.Some? && CleanName(settings.name.value).None?
      ensures r == Err(NoSuchAgent) ==> forall a :: a in agents ==> a.id != id
      ensures r.Err? ==> Now() == old(Now())
      ensures r.Ok? ==> exists i ::
                && 0 <= i < |old(agents)| && old(agents)[i].id == id
                && agents == old(agents)[i := r.value] && grants == old(grants) - {id}
                && Changed(old(agents)[i], settings, r.value)
      ensures forall at :: Now() == Step(old(Now()), Event(at, Op.Update(id, settings)))
    {
      hide CleanName;
      if settings.scopes.Some? && |settings.scopes.value| > MAX_SCOPES {
        return Err(TooManyScopes);
      }
      if settings.name.Some? && CleanName(settings.name.value).None? {
        return Err(NeedsName);
      }
      var i := Position(agents, id);
      if i.None? {
        return Err(NoSuchAgent);
      }
      var agent := agents[i.value];
      if settings.name.Some? {
        agent := agent.(name := CleanName(settings.name.value).value);
      }
      if settings.paused.Some? {
        agent := agent.(paused := settings.paused.value);
      }
      if settings.approval.Some? {
        agent := agent.(approval := settings.approval.value);
      }
      if settings.scopes.Some? {
        agent := agent.(scopes := settings.scopes.value);
      }
      assert agent == settings.AppliedTo(agents[i.value]) && Changed(agents[i.value], settings, agent);
      hide Changed;
      agents := agents[i.value := agent];
      grants := grants - {id};
      r := Ok(agent);
    }

    method Approved(id: string, refs: seq<SecretRef>, now: nat)
      modifies this`grants
      ensures Now() == Step(old(Now()), Event(now, Op.Approve(id, refs)))
    {
      var agent := Find(agents, id);
      if agent.None? || agent.value.approval != Session15m {
        return;
      }
      var held := if id in grants then grants[id] else [];
      held := Retained(held, refs, now);
      grants := grants[id := held + Issued(refs, now + SESSION_GRANT_SECS)];
    }

    method Touch(id: string, now: nat)
      modifies this`agents
      ensures Now() == Step(old(Now()), Event(now, Op.Touch(id)))
      ensures (forall a :: a in old(agents) ==> a.id != id) ==> agents == old(agents)
      ensures (exists a :: a in old(agents) && a.id == id) ==> exists i ::
                && 0 <= i < |old(agents)| && old(agents)[i].id == id
                && agents == old(agents)[i := old(agents)[i].(lastUsedAt := Some(now))]
    {
      var i := Position(agents, id);
      if i.Some? {
        agents := agents[i.value := agents[i.value].(lastUsedAt := Some(now))];
      }
    }

    method OnLock()
      modifies this`grants
      ensures forall at :: Now() == Step(old(Now()), Event(at, Op.Lock))
    {
      grants := map[];
    }
  }
}
