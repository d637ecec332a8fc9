/** The scope language of the agent: paths that name one secret, and patterns that allow some of them. */
module Scope {
  // Text is a sequence of characters. A slug or key that passes its check is ASCII, so its length in bytes is its
  // length in characters.

  import opened Common
  import opened Text

  const SCHEME := "zv://"
  const MAX_SLUG: nat := 64
  const MAX_KEY: nat := 128

  datatype RefError = Scheme | Shape | Slug | Key

  predicate LowerOrDigit(c: char) {
    'a' <= c <= 'z' || '0' <= c <= '9'
  }

  predicate IsSlug(s: string) {
    && s != [] && |s| <= MAX_SLUG
    && s[0] != '-' && s[|s| - 1] != '-'
    && (forall i :: 0 <= i < |s| - 1 ==> !(s[i] == '-' && s[i + 1] == '-'))
    && forall i :: 0 <= i < |s| ==> LowerOrDigit(s[i]) || s[i] == '-'
  }

  function ParseSlug(s: string): Result<string, RefError> {
    if IsSlug(s) then Ok(s) else Err(Slug)
  }

  predicate Alphabetic(c: char) {
    'a' <= c <= 'z' || 'A' <= c <= 'Z'
  }

  predicate IsKey(s: string) {
    && 0 < |s| <= MAX_KEY
    && (Alphabetic(s[0]) || s[0] == '_')
    && forall i :: 0 < i < |s| ==> Alphabetic(s[i]) || '0' <= s[i] <= '9' || s[i] == '_'
  }

  datatype SecretRef = SecretRef(project: string, environment: string, folder: Option<string>, key: string) {
    predicate Valid() {
      IsSlug(project) && IsSlug(environment) && (folder.Some? ==> IsSlug(folder.value)) && IsKey(key)
    }

    function Places(): seq<string> {
      [project, environment] + (if folder.Some? then [folder.value] else [])
    }
  }

  function StripScheme(s: string): Option<string> {
    if SCHEME <= s then Some(s[|SCHEME|..]) else None
  }

  function ParseRef(s: string): Result<SecretRef, RefError> {
    var rest := StripScheme(s);
    if rest.None? then Err(Scheme)
    else
      var parts := Split(rest.value, '/');
      if |parts| == 3 then FromParts(parts[0], parts[1], None, parts[2])
      else if |parts| == 4 then FromParts(parts[0], parts[1], Some(parts[2]), parts[3])
      else Err(Shape)
  }

  function FromParts(project: string, environment: string, folder: Option<string>, key: string):
    Result<SecretRef, RefError>
  {
    if !IsKey(key) then Err(Key)
    else if ParseSlug(project).Err? then Err(Slug)
    else if ParseSlug(environment).Err? then Err(Slug)
    else if folder.Some? && ParseSlug(folder.value).Err? then Err(Slug)
    else Ok(SecretRef(project, environment, folder, key))
  }

  /** Each place followed by a slash. */
  function Slashed(places: seq<string>): string {
    if places == [] then [] else places[0] + "/" + Slashed(places[1..])
  }

  function PrintRef(r: SecretRef): string {
    SCHEME + Slashed(r.Places()) + r.key
  }

  datatype ScopePattern = Exact(r: SecretRef) | Prefix(places: seq<string>) {
    predicate Valid() {
      match this
      case Exact(r) => r.Valid()
      case Prefix(places) => 1 <= |places| <= 3 && AllSlugs(places)
    }

    predicate Allows(r: SecretRef) {
      match this
      case Exact(p) => p == r
      case Prefix(prefix) =>
        |prefix| <= |r.Places()| && forall i :: 0 <= i < |prefix| ==> r.Places()[i] == prefix[i]
    }
  }

  predicate AllSlugs(places: seq<string>) {
    forall i :: 0 <= i < |places| ==> IsSlug(places[i])
  }

  predicate EndsWith(s: string, suffix: string) {
    |suffix| <= |s| && s[|s| - |suffix|..] == suffix
  }

  function TrimEndMatches(s: string, suffix: string): string
    requires suffix != []
  {
    if EndsWith(s, suffix) then TrimEndMatches(s[..|s| - |suffix|], suffix) else s
  }

  function ParseScope(s: string): Result<ScopePattern, RefError> {
    if !EndsWith(s, "/*") then
      match ParseRef(s) case Ok(r) => Ok(Exact(r)) case Err(e) => Err(e)
    else
      var rest := StripScheme(s[..|s| - 2]);
      if rest.None? then Err(Scheme)
      else
        var parts := Split(rest.value, '/');
        if |parts| > 3 then Err(Shape)
        else if AllSlugs(parts) then Ok(Prefix(parts))
        else Err(Slug)
  }

  function ParsePlace(s: string): Result<ScopePattern, RefError> {
    var trimmed := TrimEndMatches(TrimEndMatches(s, "/*"), "/");
    var rest := StripScheme(trimmed);
    if rest.None? then Err(Scheme)
    else
      var depth := |Split(rest.value, '/')|;
      if depth <= 2 || EndsWith(s, "/") || EndsWith(s, "/*") then ParseScope(trimmed + "/*")
      else match ParseRef(trimmed) case Ok(r) => Ok(Exact(r)) case Err(e) => Err(e)
  }

  function PrintScope(p: ScopePattern): string {
    match p
    case Exact(r) => PrintRef(r)
    case Prefix(places) => SCHEME + Join(places, '/') + "/*"
  }

  // ---------------------------------------------------------------- printing and parsing

  lemma NameHasNoSlash(s: string)
    requires IsSlug(s) || IsKey(s)
    ensures '/' !in s && s[|s| - 1] != '*'
  {
  }

  lemma {:induction false} SlashedIsJoin(places: seq<string>, last: string)
    ensures Slashed(places) + last == Join(places + [last], '/')
  {
    if places == [] {
      assert [] + [last] == [last];
    } else {
      SlashedIsJoin(places[1..], last);
      assert (places + [last])[1..] == places[1..] + [last];
      assert places[0] + "/" + Slashed(places[1..]) + last == places[0] + "/" + (Slashed(places[1..]) + last);
    }
  }

  lemma PrintedParts(r: SecretRef)
    ensures PrintRef(r) == SCHEME + Join(r.Places() + [r.key], '/')
  {
    SlashedIsJoin(r.Places(), r.key);
    Associative(SCHEME, Slashed(r.Places()), r.key);
  }

  lemma RefPartsFree(r: SecretRef)
    requires r.Valid()
    ensures FreeOf(r.Places() + [r.key], '/')
  {
    NameHasNoSlash(r.project);
    NameHasNoSlash(r.environment);
    if r.folder.Some? {
      NameHasNoSlash(r.folder.value);
    }
    NameHasNoSlash(r.key);
  }

  lemma ParsePrintedRef(r: SecretRef)
    requires r.Valid()
    ensures ParseRef(PrintRef(r)) == Ok(r)
  {
    PrintedParts(r);
    RefPartsFree(r);
    var parts := r.Places() + [r.key];
    SplitJoin(parts, '/');
    hide IsSlug, IsKey, Split, Join;
  }

  lemma PrintParsedRef(s: string)
    requires ParseRef(s).Ok?
    ensures ParseRef(s).value.Valid() && PrintRef(ParseRef(s).value) == s
  {
    hide IsSlug, IsKey, Split, Join;
    var r := ParseRef(s).value;
    var parts := Split(StripScheme(s).value, '/');
    PrintedParts(r);
    assert r.Places() + [r.key] == parts;
    JoinSplit(StripScheme(s).value, '/');
  }

  /** Printing and parsing a reference are inverses: parsing accepts exactly what valid references print. */
  lemma RefRoundTrip(s: string, r: SecretRef)
    ensures ParseRef(s) == Ok(r) <==> r.Valid() && PrintRef(r) == s
  {
    if ParseRef(s) == Ok(r) {
      PrintParsedRef(s);
    }
    if r.Valid() && PrintRef(r) == s {
      ParsePrintedRef(r);
    }
  }

  lemma LastChar(r: SecretRef)
    requires r.Valid()
    ensures PrintRef(r) != [] && PrintRef(r)[|PrintRef(r)| - 1] == r.key[|r.key| - 1]
  {
  }

  lemma PlacesFree(places: seq<string>)
    requires AllSlugs(places)
    ensures FreeOf(places, '/')
  {
    forall i | 0 <= i < |places| ensures '/' !in places[i] {
      NameHasNoSlash(places[i]);
    }
  }

  lemma ParsePrintedScope(p: ScopePattern)
    requires p.Valid()
    ensures ParseScope(PrintScope(p)) == Ok(p)
  {
    hide IsSlug, Split, Join;
    match p
    case Exact(r) =>
      LastChar(r);
      NameHasNoSlash(r.key);
      ParsePrintedRef(r);
    case Prefix(places) =>
      PlacesFree(places);
      SplitJoin(places, '/');
  }

  lemma PrintParsedScope(s: string)
    requires ParseScope(s).Ok?
    ensures ParseScope(s).value.Valid() && PrintScope(ParseScope(s).value) == s
  {
    hide IsSlug, Split, Join, ParseRef;
    if EndsWith(s, "/*") {
      var front := s[..|s| - 2];
      JoinSplit(StripScheme(front).value, '/');
      assert s == front + "/*";
    } else {
      PrintParsedRef(s);
    }
  }

  /** Likewise for scopes. */
  lemma ScopeRoundTrip(s: string, p: ScopePattern)
    ensures ParseScope(s) == Ok(p) <==> p.Valid() && PrintScope(p) == s
  {
    if ParseScope(s) == Ok(p) {
      PrintParsedScope(s);
    }
    if p.Valid() && PrintScope(p) == s {
      ParsePrintedScope(p);
    }
  }

  lemma {:induction false} JoinEndsLast(parts: seq<string>, sep: char)
    requires parts != [] && parts[|parts| - 1] != []
    ensures var s, last := Join(parts, sep), parts[|parts| - 1];
            s != [] && s[|s| - 1] == last[|last| - 1]
  {
    if |parts| > 1 {
      JoinEndsLast(parts[1..], sep);
    }
  }

  lemma NothingToTrim(s: string)
    requires s != [] && s[|s| - 1] != '*' && s[|s| - 1] != '/'
    ensures TrimEndMatches(TrimEndMatches(s, "/*"), "/") == s
    ensures !EndsWith(s, "/") && !EndsWith(s, "/*")
  {
  }

  /** A printed scope, typed as a place, names that scope. */
  lemma PlaceRoundTrip(p: ScopePattern)
    requires p.Valid()
    ensures ParsePlace(PrintScope(p)) == Ok(p)
  {
    var s := PrintScope(p);
    match p
    case Exact(r) =>
      LastChar(r);
      NameHasNoSlash(r.key);
      NothingToTrim(s);
      ParsePrintedRef(r);
      PrintedParts(r);
      RefPartsFree(r);
      var parts := r.Places() + [r.key];
      SplitJoin(parts, '/');
      hide IsSlug, IsKey, Split, Join, ParseRef, TrimEndMatches, PrintRef;
    case Prefix(places) =>
      var front := SCHEME + Join(places, '/');
      var last := places[|places| - 1];
      NameHasNoSlash(last);
      JoinEndsLast(places, '/');
      NothingToTrim(front);
      assert TrimEndMatches(s, "/*") == front;
      assert front + "/*" == s;
      ParsePrintedScope(p);
      hide IsSlug, Split, Join, TrimEndMatches, ParseScope;
  }

  // ---------------------------------------------------------------- what is accepted, and what each error means

  ghost predicate DoubledAt(t: string, i: nat) {
    i + 1 < |t| && t[i] == '-' && t[i + 1] == '-'
  }

  ghost predicate Doubled(t: string) {
    exists i: nat :: DoubledAt(t, i)
  }

  lemma DoubledStep(t: string)
    requires t != []
    ensures Doubled(t) <==> DoubledAt(t, 0) || Doubled(t[1..])
  {
    var rest := t[1..];
    forall i: nat ensures DoubledAt(rest, i) <==> DoubledAt(t, i + 1) {
    }
    if i: nat :| DoubledAt(t, i) {
      assert i == 0 || DoubledAt(rest, i - 1);
    }
  }

  ghost predicate NoneEmpty(parts: seq<string>) {
    forall i :: 0 <= i < |parts| ==> parts[i] != []
  }

  lemma EmptyFirst(parts: seq<string>)
    requires parts != []
    ensures NoneEmpty(parts) <==> parts[0] != [] && NoneEmpty(parts[1..])
  {
    if parts[0] != [] && NoneEmpty(parts[1..]) {
      forall i | 0 <= i < |parts| ensures parts[i] != [] {
        assert i == 0 || parts[i] == parts[1..][i - 1];
      }
    }
  }

  /** No piece of t after the first is empty exactly when t neither ends in a dash nor doubles one. */
  lemma {:induction false} LaterPieces(t: string)
    ensures NoneEmpty(Split(t, '-')[1..]) <==> (t != [] ==> t[|t| - 1] != '-') && !Doubled(t)
    ensures Split(t, '-')[0] == [] <==> t == [] || t[0] == '-'
  {
    if t != [] {
      hide Doubled, NoneEmpty;
      var rest := t[1..];
      LaterPieces(rest);
      DoubledStep(t);
      EmptyFirst(Split(rest, '-'));
      assert rest != [] ==> t[|t| - 1] == rest[|rest| - 1];
      assert Split(t, '-')[1..] == if t[0] == '-' then Split(rest, '-') else Split(rest, '-')[1..];
    } else {
      assert Split(t, '-')[1..] == [];
    }
  }

  /** A slug is at most 64 small letters and digits, in words joined by single dashes. */
  lemma SlugMeaning(s: string)
    ensures IsSlug(s) <==>
            && |s| <= 64
            && (forall c :: c in s ==> 'a' <= c <= 'z' || '0' <= c <= '9' || c == '-')
            && forall i :: 0 <= i < |Split(s, '-')| ==> Split(s, '-')[i] != []
  {
    hide Split;
    LaterPieces(s);
    EmptyFirst(Split(s, '-'));
    assert Doubled(s) <==> !(forall i :: 0 <= i < |s| - 1 ==> !(s[i] == '-' && s[i + 1] == '-')) by {
      if i :| 0 <= i < |s| - 1 && s[i] == '-' && s[i + 1] == '-' {
        assert DoubledAt(s, i);
      }
    }
    forall i | 0 <= i < |s| ensures s[i] in s {
    }
  }

  /** A key is at most 128 letters, digits and underscores, and does not start with a digit. */
  lemma KeyMeaning(s: string)
    ensures IsKey(s) <==>
            && 1 <= |s| <= 128 && !('0' <= s[0] <= '9')
            && forall c :: c in s ==> 'a' <= c <= 'z' || 'A' <= c <= 'Z' || '0' <= c <= '9' || c == '_'
  {
    forall i | 0 <= i < |s| ensures s[i] in s {
    }
  }

  /** The printed forms. */
  lemma PrintedForms(r: SecretRef, places: seq<string>)
    ensures PrintRef(r) == "zv://" + r.project + "/" + r.environment + "/" +
                           (if r.folder.Some? then r.folder.value + "/" else "") + r.key
    ensures PrintScope(Exact(r)) == PrintRef(r)
    ensures PrintScope(Prefix(places)) == "zv://" + Join(places, '/') + "/*"
  {
    SlashedForm(r.project, r.environment, r.folder);
    var inner := if r.folder.Some? then r.folder.value + "/" else "";
    Associative(SCHEME, r.project + "/" + r.environment + "/", inner);
    Associative(SCHEME, r.project + "/" + r.environment, "/");
    Associative(SCHEME, r.project + "/", r.environment);
    Associative(SCHEME, r.project, "/");
    hide Slashed;
  }

  lemma SlashedForm(project: string, environment: string, folder: Option<string>)
    ensures Slashed([project, environment] + (if folder.Some? then [folder.value] else []))
         == project + "/" + environment + "/" + (if folder.Some? then folder.value + "/" else "")
  {
    var rest := if folder.Some? then [folder.value] else [];
    SlashedTwo(project, environment, rest);
    assert rest != [] ==> rest[1..] == [] && Slashed(rest) == rest[0] + "/" + [];
    assert rest != [] ==> rest[0] + "/" + [] == rest[0] + "/";
  }

  lemma SlashedTwo(a: string, b: string, rest: seq<string>)
    ensures Slashed([a, b] + rest) == a + "/" + b + "/" + Slashed(rest)
  {
    var places := [a, b] + rest;
    assert places[1..] == [b] + rest && places[1..][1..] == rest;
    Associative(a + "/", b + "/", Slashed(rest));
    Associative(a + "/", b, "/");
  }

  /** Why a path is refused. */
  lemma RefErrors(s: string)
    ensures ParseRef(s) == Err(Scheme) <==> !("zv://" <= s)
    ensures "zv://" <= s ==>
              var parts := Split(s[5..], '/');
              var n := |parts|;
              && (ParseRef(s) == Err(Shape) <==> n != 3 && n != 4)
              && (ParseRef(s) == Err(Key) <==> (n == 3 || n == 4) && !IsKey(parts[n - 1]))
              && (ParseRef(s) == Err(Slug) <==>
                    (n == 3 || n == 4) && IsKey(parts[n - 1]) && exists i :: 0 <= i < n - 1 && !IsSlug(parts[i]))
  {
    hide IsSlug, IsKey, Split;
    if "zv://" <= s {
      var parts := Split(s[5..], '/');
      if |parts| == 4 && exists i :: 0 <= i < 3 && !IsSlug(parts[i]) {
        assert !IsSlug(parts[0]) || !IsSlug(parts[1]) || !IsSlug(parts[2]);
      }
    }
  }

  /** Why a scope is refused. */
  lemma ScopeErrors(front: string)
    ensures var s := front + "/*";
            && (ParseScope(s) == Err(Scheme) <==> !("zv://" <= front))
            && ("zv://" <= front ==>
                  var parts := Split(front[5..], '/');
                  && (ParseScope(s) == Err(Shape) <==> |parts| > 3)
                  && (ParseScope(s) == Err(Slug) <==>
                        |parts| <= 3 && exists i :: 0 <= i < |parts| && !IsSlug(parts[i])))
  {
    hide IsSlug, Split;
    var s := front + "/*";
    assert s[|s| - 2..] == "/*" && s[..|s| - 2] == front;
  }

  function Slashes(k: nat): string {
    if k == 0 then "" else Slashes(k - 1) + "/"
  }

  function Stars(m: nat): string {
    if m == 0 then "" else Stars(m - 1) + "/*"
  }

  lemma {:induction false} StarsTrimmed(front: string, m: nat)
    requires !EndsWith(front, "/*")
    ensures TrimEndMatches(front + Stars(m), "/*") == front
    ensures m > 0 ==> EndsWith(front + Stars(m), "/*")
  {
    if m == 0 {
      assert front + "" == front;
    } else {
      var s := front + Stars(m);
      Associative(front, Stars(m - 1), "/*");
      assert s[|s| - 2..] == "/*" && s[..|s| - 2] == front + Stars(m - 1);
      StarsTrimmed(front, m - 1);
    }
  }

  lemma {:induction false} SlashesTrimmed(core: string, k: nat)
    requires core != [] ==> core[|core| - 1] != '/'
    ensures TrimEndMatches(core + Slashes(k), "/") == core
    ensures k > 0 <==> EndsWith(core + Slashes(k), "/")
    ensures k > 0 ==> !EndsWith(core + Slashes(k), "/*")
  {
    hide TrimEndMatches;
    var s := core + Slashes(k);
    if k == 0 {
      assert s == core;
      if s != [] {
        assert s[|s| - 1..][0] == s[|s| - 1];
      }
      NothingAfter(s, "/");
    } else {
      var front := core + Slashes(k - 1);
      Associative(core, Slashes(k - 1), "/");
      LastSlash(front);
      SlashesTrimmed(core, k - 1);
    }
  }

  lemma NothingAfter(s: string, suffix: string)
    requires suffix != [] && !EndsWith(s, suffix)
    ensures TrimEndMatches(s, suffix) == s
  {
  }

  lemma OneLess(s: string, suffix: string)
    requires suffix != [] && EndsWith(s, suffix)
    ensures TrimEndMatches(s, suffix) == TrimEndMatches(s[..|s| - |suffix|], suffix)
  {
  }

  lemma LastSlash(front: string)
    ensures EndsWith(front + "/", "/") && !EndsWith(front + "/", "/*")
    ensures TrimEndMatches(front + "/", "/") == TrimEndMatches(front, "/")
  {
    hide TrimEndMatches;
    var s := front + "/";
    assert s[|s| - 1..] == "/" && s[..|s| - 1] == front;
    OneLess(s, "/");
    if |s| >= 2 {
      assert s[|s| - 2..][1] == '/';
    }
  }

  lemma NoSlashAfterStar(front: string, m: nat)
    requires m > 0
    ensures !EndsWith(front + Stars(m), "/")
  {
    var s := front + Stars(m);
    assert s[|s| - 1] == '*';
  }

  /**
   A place may be typed with any number of slashes and then of stars after it: what is left names the place,
   or, when there are none and it is three names deep or more, a path.
   */
  lemma PlaceMeaning(core: string, k: nat, m: nat)
    requires core != [] ==> core[|core| - 1] != '/'
    requires k == 0 ==> !EndsWith(core, "/*")
    ensures var place := ParsePlace(core + Slashes(k) + Stars(m));
            && (!("zv://" <= core) ==> place == Err(Scheme))
            && ("zv://" <= core ==>
                  var parts := Split(core[5..], '/');
                  if |parts| <= 2 || k + m > 0 then
                    && (place == Err(Shape) <==> |parts| > 3)
                    && (place == Ok(Prefix(parts)) <==> |parts| <= 3 && AllSlugs(parts))
                    && (place == Err(Slug) <==> |parts| <= 3 && !AllSlugs(parts))
                  else
                    match ParseRef(core) case Ok(r) => place == Ok(Exact(r)) case Err(e) => place == Err(e))
  {
    hide IsSlug, Split, TrimEndMatches, Stars, ParseRef, ParseScope;
    var s := core + Slashes(k) + Stars(m);
    SlashesTrimmed(core, k);
    if k == 0 {
      assert Slashes(k) == "" && core + "" == core;
    }
    StarsTrimmed(core + Slashes(k), m);
    assert TrimEndMatches(TrimEndMatches(s, "/*"), "/") == core;
    if m > 0 {
      NoSlashAfterStar(core + Slashes(k), m);
    } else {
      NoStars();
      assert s == core + Slashes(k);
    }
    PlaceOfScope(core);
  }

  lemma NoStars()
    ensures Stars(0) == ""
  {
  }

  lemma PlaceOfScope(core: string)
    ensures "zv://" <= core ==>
              var place, parts := ParseScope(core + "/*"), Split(core[5..], '/');
              && (place == Err(Shape) <==> |parts| > 3)
              && (place == Ok(Prefix(parts)) <==> |parts| <= 3 && AllSlugs(parts))
              && (place == Err(Slug) <==> |parts| <= 3 && !AllSlugs(parts))
  {
    hide IsSlug, Split;
    var s := core + "/*";
    assert s[|s| - 2..] == "/*" && s[..|s| - 2] == core;
  }

  // ---------------------------------------------------------------- matching as text

  ghost predicate StartsSame(prefix: seq<string>, places: seq<string>) {
    |prefix| <= |places| && forall i :: 0 <= i < |prefix| ==> places[i] == prefix[i]
  }

  lemma FirstPart(p: string, a: string, q: string, b: string)
    requires '/' !in p && '/' !in q
    ensures p + "/" + a <= q + "/" + b <==> p == q && a <= b
  {
    var left, right := p + "/" + a, q + "/" + b;
    assert left[|p|] == '/' && right[|q|] == '/';
    if |q| < |p| {
      assert left[|q|] == p[|q|] && p[|q|] in p;
    } else if |p| < |q| {
      assert right[|p|] == q[|p|] && q[|p|] in q;
    } else {
      assert left[..|p|] == p && right[..|p|] == q;
      assert left[|p| + 1..] == a && right[|p| + 1..] == b;
      assert left == p + (['/'] + a) && right == q + (['/'] + b);
      if left <= right {
        assert right[..|left|][|p| + 1..] == a;
      }
    }
  }

  lemma {:induction false} SlashedPrefix(prefix: seq<string>, places: seq<string>, key: string)
    requires FreeOf(prefix, '/') && FreeOf(places, '/') && '/' !in key
    ensures Slashed(prefix) <= Slashed(places) + key <==> StartsSame(prefix, places)
  {
    if prefix == [] {
    } else if places == [] {
      assert Slashed(prefix)[|prefix[0]|] == '/';
    } else {
      var p, a, q, b := prefix[0], Slashed(prefix[1..]), places[0], Slashed(places[1..]) + key;
      SlashedPrefix(prefix[1..], places[1..], key);
      FirstPart(p, a, q, b);
      assert Slashed(places) + key == q + "/" + b;
      hide StartsSame;
    }
  }

  lemma PrefixOfSum(head: string, a: string, b: string)
    ensures head + a <= head + b <==> a <= b
  {
    if head + a <= head + b {
      assert (head + b)[|head|..] == b && (head + a)[|head|..] == a;
    }
  }

  lemma WithoutStar(places: seq<string>)
    requires places != []
    ensures PrintScope(Prefix(places)) == SCHEME + Slashed(places) + "*"
  {
    var k := |places| - 1;
    SlashedIsJoin(places[..k], places[k]);
    assert places[..k] + [places[k]] == places;
    SlashedSnoc(places[..k], places[k]);
  }

  lemma {:induction false} SlashedSnoc(places: seq<string>, last: string)
    ensures Slashed(places + [last]) == Slashed(places) + last + "/"
  {
    if places == [] {
      assert ([] + [last])[1..] == [];
    } else {
      SlashedSnoc(places[1..], last);
      assert (places + [last])[1..] == places[1..] + [last];
      var first, rest := places[0] + "/", Slashed(places[1..]);
      assert first + (rest + last + "/") == first + rest + last + "/";
    }
  }

  /**
   Component matching is text matching: a place allows exactly the paths that
   start with its printed form less the star, and a path allows exactly itself.
   */
  lemma AllowsIsTextual(p: ScopePattern, r: SecretRef)
    requires p.Valid() && r.Valid()
    ensures p.Allows(r) <==>
            match p
            case Exact(_) => PrintScope(p) == PrintRef(r)
            case Prefix(_) => PrintScope(p)[..|PrintScope(p)| - 1] <= PrintRef(r)
  {
    match p
    case Exact(q) =>
      ParsePrintedRef(q);
      ParsePrintedRef(r);
    case Prefix(prefix) =>
      WithoutStar(prefix);
      assert PrintScope(p)[..|PrintScope(p)| - 1] == SCHEME + Slashed(prefix);
      PlacesFree(prefix);
      RefPartsFree(r);
      assert FreeOf(r.Places(), '/') by {
        forall i | 0 <= i < |r.Places()| ensures '/' !in r.Places()[i] {
          assert (r.Places() + [r.key])[i] == r.Places()[i];
        }
      }
      NameHasNoSlash(r.key);
      SlashedPrefix(prefix, r.Places(), r.key);
      Associative(SCHEME, Slashed(r.Places()), r.key);
      PrefixOfSum(SCHEME, Slashed(prefix), Slashed(r.Places()) + r.key);
  }
}
