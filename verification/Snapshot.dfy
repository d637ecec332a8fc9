/** What an access token reads: three views of one decrypted project. */
module TokenSnapshot {
  // A sealed value is modelled by what opening it gives.

  import opened Common
  import opened Scope
  import opened Order

  datatype CloudError = OutOfScope | Decrypt

  /** The plain text, if the key and the data are right. */
  type Sealed = Option<string>

  datatype Secret = Secret(folder: Option<string>, key: string, values: map<string, Sealed>, id: string)

  datatype Environment = Environment(id: string, slug: string)

  datatype Snapshot = Snapshot(project: string, environments: seq<Environment>, secrets: seq<Secret>)

  /** `open` refuses a token without environments. */
  ghost predicate Valid(s: Snapshot) {
    s.environments != []
  }

  function Reference(s: Snapshot, secret: Secret): SecretRef
    requires Valid(s)
  {
    SecretRef(s.project, s.environments[0].slug, secret.folder, secret.key)
  }

  /** The value in the nearest environment of the chain that has one. */
  function Source(environments: seq<Environment>, secret: Secret): Option<Sealed> {
    if environments == [] then None
    else if environments[0].id in secret.values then Some(secret.values[environments[0].id])
    else Source(environments[1..], secret)
  }

  function OpenValue(s: Snapshot, secret: Secret): Result<string, CloudError> {
    match Source(s.environments, secret)
    case None => Err(Decrypt)
    case Some(sealed) => if sealed.Some? then Ok(sealed.value) else Err(Decrypt)
  }

  function CheckScope(s: Snapshot, places: seq<string>): bool
    requires Valid(s)
  {
    && (places == [] || places[0] == s.project)
    && (|places| < 2 || places[1] == s.environments[0].slug)
  }

  // ---------------------------------------------------------------- views

  /** References of the secrets that have a value, in the order they are held. */
  function Held(s: Snapshot, secrets: seq<Secret>): seq<(SecretRef, Secret)>
    requires Valid(s)
    decreases |secrets|
  {
    if secrets == [] then []
    else
      var k := |secrets| - 1;
      Held(s, secrets[..k]) +
      (if Source(s.environments, secrets[k]).Some? then [(Reference(s, secrets[k]), secrets[k])] else [])
  }

  function Paths<V>(entries: seq<(SecretRef, V)>): seq<SecretRef> {
    seq(|entries|, i requires 0 <= i < |entries| => entries[i].0)
  }

  function DedupPaths(refs: seq<SecretRef>): seq<SecretRef> {
    if |refs| < 2 then refs
    else if refs[0] == refs[1] then DedupPaths(refs[1..])
    else [refs[0]] + DedupPaths(refs[1..])
  }

  function Refs(s: Snapshot): seq<SecretRef>
    requires Valid(s)
  {
    DedupPaths(Paths(Sort(Held(s, s.secrets))))
  }

  function FindReadable(s: Snapshot, secrets: seq<Secret>, r: SecretRef): Option<Secret> {
    if secrets == [] then None
    else if secrets[0].key == r.key && secrets[0].folder == r.folder && Source(s.environments, secrets[0]).Some?
    then Some(secrets[0])
    else FindReadable(s, secrets[1..], r)
  }

  function Read(s: Snapshot, r: SecretRef): Result<string, CloudError>
    requires Valid(s)
  {
    if !CheckScope(s, r.Places()) then Err(OutOfScope)
    else match FindReadable(s, s.secrets, r)
      case None => Err(OutOfScope)
      case Some(secret) => OpenValue(s, secret)
  }

  /** The entries of the readable secrets under the prefix, unsorted, unless one does not open. */
  function Collected(s: Snapshot, secrets: seq<Secret>, prefix: ScopePattern):
    Result<seq<(SecretRef, string)>, CloudError>
    requires Valid(s)
    decreases |secrets|
  {
    if secrets == [] then Ok([])
    else
      var k := |secrets| - 1;
      match Collected(s, secrets[..k], prefix)
      case Err(e) => Err(e)
      case Ok(front) =>
        var r := Reference(s, secrets[k]);
        if Source(s.environments, secrets[k]).None? || !prefix.Allows(r) then Ok(front)
        else match OpenValue(s, secrets[k])
          case Err(e) => Err(e)
          case Ok(v) => Ok(front + [(r, v)])
  }

  function Exported(s: Snapshot, prefix: ScopePattern): Result<seq<(SecretRef, string)>, CloudError>
    requires Valid(s)
  {
    match prefix
    case Exact(r) => (match Read(s, r) case Ok(v) => Ok([(r, v)]) case Err(e) => Err(e))
    case Prefix(places) =>
      if !CheckScope(s, places) then Err(OutOfScope)
      else match Collected(s, s.secrets, prefix)
        case Err(e) => Err(e)
        case Ok(out) => Ok(Sort(out))
  }

  method Export(s: Snapshot, prefix: ScopePattern) returns (r: Result<seq<(SecretRef, string)>, CloudError>)
    requires Valid(s)
    ensures r == Exported(s, prefix)
  {
    match prefix {
      case Exact(path) =>
        var v := Read(s, path);
        return if v.Ok? then Ok([(path, v.value)]) else Err(v.error);
      case Prefix(places) =>
        if !CheckScope(s, places) {
          return Err(OutOfScope);
        }
        var out: seq<(SecretRef, string)> := [];
        var i := 0;
        assert s.secrets[..0] == [];
        while i < |s.secrets|
          invariant 0 <= i <= |s.secrets|
          invariant Collected(s, s.secrets[..i], prefix) == Ok(out)
        {
          var secret := s.secrets[i];
          assert s.secrets[..i + 1][..i] == s.secrets[..i];
          var path := Reference(s, secret);
          if Source(s.environments, secret).Some? && prefix.Allows(path) {
            var v := OpenValue(s, secret);
            if v.Err? {
              CollectedFails(s, s.secrets, prefix, i + 1);
              return Err(v.error);
            }
            out := out + [(path, v.value)];
          }
          i := i + 1;
        }
        assert s.secrets[..i] == s.secrets;
        return Ok(Sort(out));
    }
  }

  lemma {:induction false} CollectedFails(s: Snapshot, secrets: seq<Secret>, prefix: ScopePattern, k: nat)
    requires Valid(s) && k <= |secrets| && Collected(s, secrets[..k], prefix).Err?
    ensures Collected(s, secrets, prefix) == Collected(s, secrets[..k], prefix)
    decreases |secrets|
  {
    if k == |secrets| {
      assert secrets[..k] == secrets;
    } else {
      var front := secrets[..|secrets| - 1];
      assert front[..k] == secrets[..k];
      CollectedFails(s, front, prefix, k);
    }
  }

  // ---------------------------------------------------------------- the views agree

  /** Environment i is the first of the chain in which the secret has a value. */
  ghost predicate Nearest(environments: seq<Environment>, secret: Secret, i: nat) {
    && i < |environments| && environments[i].id in secret.values
    && forall j :: 0 <= j < i ==> environments[j].id !in secret.values
  }

  /** The value is taken from the nearest environment that has one. */
  lemma {:induction false} SourceIsNearest(environments: seq<Environment>, secret: Secret)
    ensures Source(environments, secret).None? <==>
            forall i :: 0 <= i < |environments| ==> environments[i].id !in secret.values
    ensures forall i: nat :: Nearest(environments, secret, i) ==>
              Source(environments, secret) == Some(secret.values[environments[i].id])
  {
    if environments != [] && environments[0].id !in secret.values {
      var rest := environments[1..];
      SourceIsNearest(rest, secret);
      forall i: nat | Nearest(environments, secret, i)
        ensures Source(environments, secret) == Some(secret.values[environments[i].id])
      {
        assert rest[i - 1] == environments[i];
        forall j | 0 <= j < i - 1 ensures rest[j].id !in secret.values {
          assert rest[j] == environments[j + 1];
        }
        assert Nearest(rest, secret, i - 1);
      }
      if forall i :: 0 <= i < |rest| ==> rest[i].id !in secret.values {
        forall i | 0 <= i < |environments| ensures environments[i].id !in secret.values {
          assert i == 0 || environments[i] == rest[i - 1];
        }
      }
    }
  }

  /** The secrets that can be read under one path, in the order they are held. */
  function Candidates(s: Snapshot, secrets: seq<Secret>, r: SecretRef): seq<Secret>
    requires Valid(s)
  {
    For(Held(s, secrets), r)
  }

  lemma CandidatesMore(s: Snapshot, front: seq<Secret>, x: Secret, r: SecretRef)
    requires Valid(s)
    ensures Candidates(s, front + [x], r)
         == Candidates(s, front, r)
            + (if Source(s.environments, x).Some? && Reference(s, x) == r then [x] else [])
  {
    hide Source;
    assert (front + [x])[..|front|] == front;
    var more := if Source(s.environments, x).Some? then [(Reference(s, x), x)] else [];
    ForConcat(Held(s, front), more, r);
    ForOne((Reference(s, x), x), r);
  }

  lemma {:induction false} CandidatesFit(s: Snapshot, secrets: seq<Secret>, r: SecretRef, i: nat)
    requires Valid(s) && i < |Candidates(s, secrets, r)|
    ensures var x := Candidates(s, secrets, r)[i];
            x in secrets && Source(s.environments, x).Some? && Reference(s, x) == r
    decreases |secrets|
  {
    var front, x := secrets[..|secrets| - 1], secrets[|secrets| - 1];
    assert front + [x] == secrets;
    CandidatesMore(s, front, x, r);
    if i < |Candidates(s, front, r)| {
      CandidatesFit(s, front, r, i);
    }
  }

  lemma {:induction false} FindReadableSnoc(s: Snapshot, front: seq<Secret>, x: Secret, r: SecretRef)
    ensures FindReadable(s, front + [x], r) ==
            if FindReadable(s, front, r).Some? then FindReadable(s, front, r)
            else if x.key == r.key && x.folder == r.folder && Source(s.environments, x).Some? then Some(x)
            else None
  {
    hide Source;
    if front == [] {
      assert [] + [x] == [x] && [x][1..] == [];
    } else {
      FindReadableSnoc(s, front[1..], x, r);
      assert (front + [x])[1..] == front[1..] + [x];
    }
  }

  /** Reading looks at the first secret held under the path. */
  lemma {:induction false} FindsFirst(s: Snapshot, secrets: seq<Secret>, r: SecretRef)
    requires Valid(s) && CheckScope(s, r.Places())
    ensures FindReadable(s, secrets, r)
         == var c := Candidates(s, secrets, r); if c == [] then None else Some(c[0])
    decreases |secrets|
  {
    if secrets != [] {
      var front, x := secrets[..|secrets| - 1], secrets[|secrets| - 1];
      assert front + [x] == secrets;
      FindsFirst(s, front, r);
      FindReadableSnoc(s, front, x, r);
      CandidatesMore(s, front, x, r);
      hide Source, Candidates;
    }
  }

  lemma OutsideHasNone(s: Snapshot, r: SecretRef)
    requires Valid(s) && !CheckScope(s, r.Places())
    ensures Candidates(s, s.secrets, r) == []
  {
    if Candidates(s, s.secrets, r) != [] {
      CandidatesFit(s, s.secrets, r, 0);
    }
  }

  lemma {:induction false} DedupMembers(refs: seq<SecretRef>)
    requires forall i, j :: 0 <= i < j < |refs| ==> Leq(refs[i], refs[j])
    ensures forall r :: r in DedupPaths(refs) <==> r in refs
    ensures refs != [] ==> DedupPaths(refs) != [] && DedupPaths(refs)[0] == refs[0]
    ensures forall i, j :: 0 <= i < j < |DedupPaths(refs)| ==>
              Leq(DedupPaths(refs)[i], DedupPaths(refs)[j]) && DedupPaths(refs)[i] != DedupPaths(refs)[j]
  {
    hide Leq;
    if |refs| >= 2 {
      var rest := refs[1..];
      DedupMembers(rest);
      assert refs == [refs[0]] + rest;
      var d := DedupPaths(rest);
      if refs[0] != refs[1] {
        forall j | 0 <= j < |d| ensures Leq(refs[0], d[j]) && refs[0] != d[j] {
          assert d[j] in rest;
          var k :| 0 <= k < |rest| && rest[k] == d[j];
          assert refs[k + 1] == rest[k];
          RefOrder(refs[0], refs[1], rest[k]);
          RefOrder(refs[1], refs[1], refs[1]);
          RefOrder(refs[1], refs[0], refs[0]);
        }
      }
    }
  }

  /** The listed references are exactly the paths with a readable secret, ascending and without repeats. */
  lemma RefsExact(s: Snapshot)
    requires Valid(s)
    ensures forall r :: r in Refs(s) <==> Candidates(s, s.secrets, r) != []
    ensures forall i, j :: 0 <= i < j < |Refs(s)| ==> Leq(Refs(s)[i], Refs(s)[j]) && Refs(s)[i] != Refs(s)[j]
  {
    hide Leq, Held, Sort, DedupPaths;
    var held := Held(s, s.secrets);
    var sorted := Sort(held);
    SortStable(held);
    DedupMembers(Paths(sorted));
    forall r ensures r in Paths(sorted) <==> For(held, r) != [] {
      ForNone(sorted, r);
      if r in Paths(sorted) {
        var i :| 0 <= i < |sorted| && Paths(sorted)[i] == r;
        assert sorted[i].0 == r;
      }
      if For(sorted, r) != [] {
        var i :| 0 <= i < |sorted| && sorted[i].0 == r;
        assert Paths(sorted)[i] == r;
      }
    }
  }

  /** A path is out of scope for reading exactly when it is not listed. */
  lemma ReadAgreesWithRefs(s: Snapshot, r: SecretRef)
    requires Valid(s)
    ensures Read(s, r) != Err(OutOfScope) <==> r in Refs(s)
  {
    hide Refs, Candidates;
    RefsExact(s);
    if CheckScope(s, r.Places()) {
      FindsFirst(s, s.secrets, r);
    } else {
      OutsideHasNone(s, r);
    }
  }

  /** What opening some secrets gives, when all open. */
  function OpenedAll(s: Snapshot, secrets: seq<Secret>): seq<string> {
    if secrets == [] then []
    else
      var k := |secrets| - 1;
      OpenedAll(s, secrets[..k]) + (match OpenValue(s, secrets[k]) case Ok(v) => [v] case Err(_) => [])
  }

  lemma CollectedMore(s: Snapshot, front: seq<Secret>, x: Secret, prefix: ScopePattern, r: SecretRef)
    requires Valid(s) && Collected(s, front + [x], prefix).Ok?
    ensures Collected(s, front, prefix).Ok?
    ensures var here := Source(s.environments, x).Some? && Reference(s, x) == r && prefix.Allows(r);
            && (here ==> OpenValue(s, x).Ok?)
            && For(Collected(s, front + [x], prefix).value, r)
               == For(Collected(s, front, prefix).value, r) + (if here then [OpenValue(s, x).value] else [])
  {
    hide Source, OpenValue;
    assert (front + [x])[..|front|] == front;
    var before := Collected(s, front, prefix).value;
    assert For(before, r) + [] == For(before, r);
    var path := Reference(s, x);
    if Source(s.environments, x).Some? && prefix.Allows(path) {
      var entry := (path, OpenValue(s, x).value);
      ForConcat(before, [entry], r);
      ForOne(entry, r);
    }
  }

  /** Under one path, export collects the openings of that path's secrets, in order. */
  lemma {:induction false} CollectedFor(s: Snapshot, secrets: seq<Secret>, prefix: ScopePattern, r: SecretRef)
    requires Valid(s) && Collected(s, secrets, prefix).Ok?
    ensures For(Collected(s, secrets, prefix).value, r)
         == if prefix.Allows(r) then OpenedAll(s, Candidates(s, secrets, r)) else []
    ensures prefix.Allows(r) ==>
              forall i :: 0 <= i < |Candidates(s, secrets, r)| ==> OpenValue(s, Candidates(s, secrets, r)[i]).Ok?
    decreases |secrets|
  {
    hide Source, OpenValue, For, Reference, Collected, Candidates, OpenedAll;
    if secrets == [] {
      NothingCollected(s, prefix, r);
    } else {
      var front, x := secrets[..|secrets| - 1], secrets[|secrets| - 1];
      assert front + [x] == secrets;
      CollectedMore(s, front, x, prefix, r);
      CollectedFor(s, front, prefix, r);
      CandidatesMore(s, front, x, r);
      var c := Candidates(s, front, r);
      OpenedMore(s, c, x);
      assert c + [] == c && OpenedAll(s, c) + [] == OpenedAll(s, c);
    }
  }

  /** Opening one secret more. */
  lemma OpenedMore(s: Snapshot, front: seq<Secret>, x: Secret)
    ensures OpenedAll(s, front + [x])
         == OpenedAll(s, front) + (match OpenValue(s, x) case Ok(v) => [v] case Err(_) => [])
  {
    hide OpenValue;
    assert (front + [x])[..|front|] == front;
  }

  lemma NothingCollected(s: Snapshot, prefix: ScopePattern, r: SecretRef)
    requires Valid(s)
    ensures For(Collected(s, [], prefix).value, r) == [] && Candidates(s, [], r) == [] && OpenedAll(s, []) == []
  {
  }

  lemma {:induction false} OpenedFirst(s: Snapshot, secrets: seq<Secret>)
    requires forall i :: 0 <= i < |secrets| ==> OpenValue(s, secrets[i]).Ok?
    ensures |OpenedAll(s, secrets)| == |secrets|
    ensures secrets != [] ==> OpenedAll(s, secrets)[0] == OpenValue(s, secrets[0]).value
    decreases |secrets|
  {
    if secrets != [] {
      OpenedFirst(s, secrets[..|secrets| - 1]);
      hide OpenValue;
    }
  }

  /** The collecting loop fails exactly when some readable secret under the prefix does not open. */
  lemma {:induction false} CollectedFailure(s: Snapshot, secrets: seq<Secret>, prefix: ScopePattern)
    requires Valid(s)
    ensures Collected(s, secrets, prefix) == Err(Decrypt) || Collected(s, secrets, prefix).Ok?
    ensures Collected(s, secrets, prefix).Err? <==>
            exists x :: x in secrets && Source(s.environments, x).Some? && prefix.Allows(Reference(s, x)) &&
                        OpenValue(s, x).Err?
    decreases |secrets|
  {
    if secrets != [] {
      var front, x := secrets[..|secrets| - 1], secrets[|secrets| - 1];
      assert secrets == front + [x];
      CollectedFailure(s, front, prefix);
    }
  }

  /**
   An in-scope export is sorted, lists exactly the listed references the prefix
   allows, and puts first under each path the value that reading it gives.
   */
  lemma ExportAgrees(s: Snapshot, places: seq<string>, r: SecretRef)
    requires Valid(s) && Exported(s, Prefix(places)).Ok?
    ensures var out := Exported(s, Prefix(places)).value;
            && Sorted(out)
            && (For(out, r) != [] <==> r in Refs(s) && Prefix(places).Allows(r))
            && (For(out, r) != [] ==> Read(s, r) == Ok(For(out, r)[0]))
  {
    hide Collected, Candidates, Refs, Leq, Sort, OpenValue, OpenedAll, FindReadable;
    var prefix := Prefix(places);
    var collected := Collected(s, s.secrets, prefix).value;
    SortStable(collected);
    CollectedFor(s, s.secrets, prefix, r);
    RefsExact(s);
    if prefix.Allows(r) {
      var c := Candidates(s, s.secrets, r);
      OpenedFirst(s, c);
      if CheckScope(s, r.Places()) {
        FindsFirst(s, s.secrets, r);
      } else {
        OutsideHasNone(s, r);
      }
    }
  }

  /** When an export fails, and how. */
  lemma ExportFailure(s: Snapshot, places: seq<string>)
    requires Valid(s)
    ensures var e := Exported(s, Prefix(places));
            && (e == Err(OutOfScope) <==> !CheckScope(s, places))
            && (e == Err(Decrypt) <==>
                  CheckScope(s, places) &&
                  exists x :: x in s.secrets && Source(s.environments, x).Some? &&
                              Prefix(places).Allows(Reference(s, x)) && OpenValue(s, x).Err?)
  {
    hide Collected, Sort;
    CollectedFailure(s, s.secrets, Prefix(places));
  }

  // ---------------------------------------------------------------- what is read

  /** The path is this secret's, and some environment of the chain has a value for it. */
  ghost predicate Holds(s: Snapshot, x: Secret, r: SecretRef)
    requires Valid(s)
  {
    && r.project == s.project && r.environment == s.environments[0].slug
    && r.folder == x.folder && r.key == x.key
    && exists i :: 0 <= i < |s.environments| && s.environments[i].id in x.values
  }

  /** Secret number k is the first one held under the path. */
  ghost predicate FirstHeld(s: Snapshot, secrets: seq<Secret>, r: SecretRef, k: nat)
    requires Valid(s)
  {
    && k < |secrets| && Holds(s, secrets[k], r)
    && forall j :: 0 <= j < k ==> !Holds(s, secrets[j], r)
  }

  /** What the value in the nearest environment that has one opens to. */
  ghost predicate Opens(s: Snapshot, x: Secret, plain: Option<string>) {
    exists i: nat :: Nearest(s.environments, x, i) && x.values[s.environments[i].id] == plain
  }

  lemma HoldsIsSource(s: Snapshot, x: Secret, r: SecretRef)
    requires Valid(s)
    ensures Holds(s, x, r) <==> Source(s.environments, x).Some? && Reference(s, x) == r
  {
    hide Source;
    SourceIsNearest(s.environments, x);
  }

  /** There is a nearest environment if some environment has a value. */
  lemma {:induction false} SomeNearest(environments: seq<Environment>, x: Secret, k: nat)
    requires k < |environments| && environments[k].id in x.values
    ensures exists i :: Nearest(environments, x, i)
  {
    if forall j :: 0 <= j < k ==> environments[j].id !in x.values {
      assert Nearest(environments, x, k);
    } else {
      var j: nat :| j < k && environments[j].id in x.values;
      SomeNearest(environments, x, j);
    }
  }

  lemma OpensIsOpenValue(s: Snapshot, x: Secret, plain: Option<string>)
    requires Source(s.environments, x).Some?
    ensures Opens(s, x, plain) <==>
            OpenValue(s, x) == if plain.Some? then Ok(plain.value) else Err(Decrypt)
  {
    hide Source;
    SourceIsNearest(s.environments, x);
    var k: nat :| k < |s.environments| && s.environments[k].id in x.values;
    SomeNearest(s.environments, x, k);
    var i: nat :| Nearest(s.environments, x, i);
    assert Source(s.environments, x) == Some(x.values[s.environments[i].id]);
  }

  lemma {:induction false} FindsHeld(s: Snapshot, secrets: seq<Secret>, r: SecretRef)
    requires Valid(s) && CheckScope(s, r.Places())
    ensures FindReadable(s, secrets, r).None? <==> forall x :: x in secrets ==> !Holds(s, x, r)
    ensures forall k: nat :: FirstHeld(s, secrets, r, k) ==> FindReadable(s, secrets, r) == Some(secrets[k])
  {
    hide Source, Holds;
    if secrets != [] {
      var x, rest := secrets[0], secrets[1..];
      assert secrets == [x] + rest;
      HoldsIsSource(s, x, r);
      FindsHeld(s, rest, r);
      forall k: nat | FirstHeld(s, secrets, r, k) && k > 0
        ensures FirstHeld(s, rest, r, k - 1)
      {
        forall j | 0 <= j < k - 1 ensures !Holds(s, rest[j], r) {
          assert rest[j] == secrets[j + 1];
        }
      }
    }
  }

  lemma HeldIsInScope(s: Snapshot, x: Secret, r: SecretRef)
    requires Valid(s) && Holds(s, x, r)
    ensures CheckScope(s, r.Places())
  {
  }

  /** Reading a path no secret is held under is out of scope. */
  lemma ReadOutOfScope(s: Snapshot, r: SecretRef)
    requires Valid(s)
    ensures Read(s, r) == Err(OutOfScope) <==> forall x :: x in s.secrets ==> !Holds(s, x, r)
    ensures Exported(s, Exact(r)) == Err(OutOfScope) <==> forall x :: x in s.secrets ==> !Holds(s, x, r)
  {
    hide Holds, FindReadable;
    if CheckScope(s, r.Places()) {
      FindsHeld(s, s.secrets, r);
    } else {
      forall x | x in s.secrets ensures !Holds(s, x, r) {
        if Holds(s, x, r) {
          HeldIsInScope(s, x, r);
        }
      }
    }
  }

  /** Otherwise the first such secret's nearest value is what is read. */
  lemma ReadIsNearest(s: Snapshot, r: SecretRef, k: nat, i: nat)
    requires Valid(s) && FirstHeld(s, s.secrets, r, k) && Nearest(s.environments, s.secrets[k], i)
    ensures var sealed := s.secrets[k].values[s.environments[i].id];
            && (forall v :: Read(s, r) == Ok(v) <==> sealed == Some(v))
            && (Read(s, r) == Err(Decrypt) <==> sealed == None)
  {
    hide Holds, FindReadable, Source;
    var x := s.secrets[k];
    HeldIsInScope(s, x, r);
    FindsHeld(s, s.secrets, r);
    HoldsIsSource(s, x, r);
    SourceIsNearest(s.environments, x);
  }

  /** The listed references are the paths some secret is held under. */
  lemma RefsAreHeld(s: Snapshot, r: SecretRef)
    requires Valid(s)
    ensures r in Refs(s) <==> exists x :: x in s.secrets && Holds(s, x, r)
  {
    hide Refs, Read, Holds;
    ReadAgreesWithRefs(s, r);
    ReadOutOfScope(s, r);
  }

  /** Exporting one path gives what reading it gives. */
  lemma ExportOfOne(s: Snapshot, r: SecretRef, k: nat, i: nat)
    requires Valid(s) && FirstHeld(s, s.secrets, r, k) && Nearest(s.environments, s.secrets[k], i)
    ensures var sealed := s.secrets[k].values[s.environments[i].id];
            && (forall out :: Exported(s, Exact(r)) == Ok(out) <==> sealed.Some? && out == [(r, sealed.value)])
            && (Exported(s, Exact(r)) == Err(Decrypt) <==> sealed == None)
  {
    hide Read;
    ReadIsNearest(s, r, k, i);
    assert Read(s, r).Ok? ==> Read(s, r) == Ok(Read(s, r).value);
  }

  /** These are, in ascending order, the numbers of the secrets held under the path. */
  ghost predicate Numbers(s: Snapshot, secrets: seq<Secret>, r: SecretRef, picks: seq<nat>)
    requires Valid(s)
  {
    && (forall a, b :: 0 <= a < b < |picks| ==> picks[a] < picks[b])
    && forall k: nat :: k in picks <==> k < |secrets| && Holds(s, secrets[k], r)
  }

  /** The values are what the nearest values of the secrets with these numbers open to. */
  ghost predicate AllOpen(s: Snapshot, secrets: seq<Secret>, picks: seq<nat>, values: seq<string>) {
    && |values| == |picks|
    && forall t :: 0 <= t < |picks| ==> picks[t] < |secrets| && Opens(s, secrets[picks[t]], Some(values[t]))
  }

  lemma NumbersMore(s: Snapshot, front: seq<Secret>, x: Secret, r: SecretRef, picks: seq<nat>, values: seq<string>)
    requires Valid(s) && Numbers(s, front, r, picks) && AllOpen(s, front, picks, values)
    ensures !Holds(s, x, r) ==> Numbers(s, front + [x], r, picks) && AllOpen(s, front + [x], picks, values)
    ensures Holds(s, x, r) ==> Numbers(s, front + [x], r, picks + [|front|])
    ensures forall v :: Holds(s, x, r) && Opens(s, x, Some(v)) ==>
              AllOpen(s, front + [x], picks + [|front|], values + [v])
  {
    hide Holds, Opens;
    var all, more := front + [x], picks + [|front|];
    forall k: nat | k < |front| ensures all[k] == front[k] {
    }
    assert all[|front|] == x;
    forall k: nat ensures k in more <==> k in picks || k == |front| {
    }
    forall a | 0 <= a < |picks| ensures picks[a] in picks {
    }
  }

  /** Under one path the entries are, in order, what the secrets held under it open to. */
  lemma {:induction false} CollectedValues(s: Snapshot, secrets: seq<Secret>, prefix: ScopePattern, r: SecretRef)
    requires Valid(s) && Collected(s, secrets, prefix).Ok? && prefix.Allows(r)
    ensures exists picks :: Numbers(s, secrets, r, picks) &&
                            AllOpen(s, secrets, picks, For(Collected(s, secrets, prefix).value, r))
    decreases |secrets|
  {
    hide Source, OpenValue, For, Reference, Collected, Holds, Opens, Numbers, AllOpen;
    if secrets == [] {
      NothingHeld(s, prefix, r);
    } else {
      var front, x := secrets[..|secrets| - 1], secrets[|secrets| - 1];
      assert front + [x] == secrets;
      CollectedMore(s, front, x, prefix, r);
      CollectedValues(s, front, prefix, r);
      var values := For(Collected(s, front, prefix).value, r);
      var picks :| Numbers(s, front, r, picks) && AllOpen(s, front, picks, values);
      NumbersMore(s, front, x, r, picks, values);
      HoldsIsSource(s, x, r);
      if Holds(s, x, r) {
        OpensIsOpenValue(s, x, Some(OpenValue(s, x).value));
      }
      assert values + [] == values;
    }
  }

  lemma NothingHeld(s: Snapshot, prefix: ScopePattern, r: SecretRef)
    requires Valid(s)
    ensures Numbers(s, [], r, []) && AllOpen(s, [], [], For(Collected(s, [], prefix).value, r))
  {
  }

  /** An export lists under each allowed path exactly the nearest values of the secrets held under it, in order. */
  lemma ExportedValues(s: Snapshot, places: seq<string>, r: SecretRef)
    requires Valid(s) && Exported(s, Prefix(places)).Ok?
    ensures var values := For(Exported(s, Prefix(places)).value, r);
            if Prefix(places).Allows(r)
            then exists picks :: Numbers(s, s.secrets, r, picks) && AllOpen(s, s.secrets, picks, values)
            else values == []
  {
    hide Collected, Sort, For, Numbers, AllOpen, Candidates, OpenedAll, OpenValue;
    var prefix := Prefix(places);
    SortStable(Collected(s, s.secrets, prefix).value);
    CollectedFor(s, s.secrets, prefix, r);
    if prefix.Allows(r) {
      CollectedValues(s, s.secrets, prefix, r);
    }
  }

  /** An export of a place fails outside the token's project and environment, or over a value that does not open. */
  lemma ExportFails(s: Snapshot, places: seq<string>)
    requires Valid(s)
    ensures var e := Exported(s, Prefix(places));
            var inside := && (places == [] || places[0] == s.project)
                          && (|places| >= 2 ==> places[1] == s.environments[0].slug);
            && (e == Err(OutOfScope) <==> !inside)
            && (e == Err(Decrypt) <==>
                  inside && exists x, r :: x in s.secrets && Holds(s, x, r) && Prefix(places).Allows(r) &&
                                           Opens(s, x, None))
  {
    hide Collected, Sort, Holds, Opens, Source, OpenValue;
    var prefix := Prefix(places);
    CollectedFailure(s, s.secrets, prefix);
    forall x ensures Holds(s, x, Reference(s, x)) <==> Source(s.environments, x).Some? {
      HoldsIsSource(s, x, Reference(s, x));
    }
    forall x, r | Holds(s, x, r) ensures r == Reference(s, x) && (Opens(s, x, None) <==> OpenValue(s, x).Err?) {
      HoldsIsSource(s, x, r);
      OpensIsOpenValue(s, x, None);
      OnlyDecrypt(s, x);
    }
  }

  lemma OnlyDecrypt(s: Snapshot, x: Secret)
    ensures OpenValue(s, x).Err? ==> OpenValue(s, x) == Err(Decrypt)
  {
  }
}
