/** What of the project list an agent limited to some scopes is shown. */
module Visibility {
  import opened Common
  import opened Scope

  datatype EnvironmentInfo = EnvironmentInfo(slug: string, name: string, kind: string,
                                             inheritsFrom: Option<string>, locked: bool)

  datatype FolderInfo = FolderInfo(slug: string, name: string)

  datatype ProjectInfo = ProjectInfo(slug: string, name: string, owner: bool,
                                     environments: seq<EnvironmentInfo>, folders: seq<FolderInfo>)

  /** Rust's `Vec::retain`. */
  function Retain<T>(xs: seq<T>, keep: T -> bool): seq<T> {
    if xs == [] then [] else (if keep(xs[0]) then [xs[0]] else []) + Retain(xs[1..], keep)
  }

  /** Each element is kept or dropped on its own, and the order stays. */
  lemma {:induction false} RetainEach<T>(a: seq<T>, b: seq<T>, x: T, keep: T -> bool)
    ensures Retain(a + b, keep) == Retain(a, keep) + Retain(b, keep)
    ensures Retain([x], keep) == if keep(x) then [x] else []
  {
    assert [x][1..] == [];
    if a == [] {
      assert a + b == b;
    } else {
      RetainEach(a[1..], b, x, keep);
      assert (a + b)[1..] == a[1..] + b;
      Associative(if keep(a[0]) then [a[0]] else [], Retain(a[1..], keep), Retain(b, keep));
    }
  }

  /** A scope's slugs, and whether it covers everything below them. */
  datatype Place = Place(slugs: seq<string>, prefix: bool)

  function PlaceOf(s: ScopePattern): Place {
    match s
    case Exact(r) => Place(r.Places(), false)
    case Prefix(places) => Place(places, true)
  }

  predicate Indexable(scopes: seq<ScopePattern>) {
    forall i :: 0 <= i < |scopes| ==> PlaceOf(scopes[i]).slugs != []
  }

  function Mine(project: string, scopes: seq<ScopePattern>): (mine: seq<Place>)
    requires Indexable(scopes)
    ensures forall m :: m in mine ==> m.slugs != []
  {
    if scopes == [] then []
    else
      var m := PlaceOf(scopes[0]);
      var rest := Mine(project, scopes[1..]);
      if m.slugs[0] == project then [m] + rest else rest
  }

  predicate KeepEnvironment(mine: seq<Place>, slug: string)
    requires forall m :: m in mine ==> m.slugs != []
  {
    exists m :: m in mine && (|m.slugs| == 1 || m.slugs[1] == slug)
  }

  predicate KeepFolder(mine: seq<Place>, slug: string) {
    exists m :: m in mine && ((m.prefix && |m.slugs| < 3) || (|m.slugs| > 2 && m.slugs[2] == slug))
  }

  function Visible(projects: seq<ProjectInfo>, scopes: seq<ScopePattern>): seq<ProjectInfo>
    requires Indexable(scopes)
  {
    if projects == [] then []
    else
      var p := projects[0];
      var mine := Mine(p.slug, scopes);
      (if mine == [] then []
       else [p.(environments := Retain(p.environments, (e: EnvironmentInfo) => KeepEnvironment(mine, e.slug)),
                folders := Retain(p.folders, (f: FolderInfo) => KeepFolder(mine, f.slug)))])
      + Visible(projects[1..], scopes)
  }

  // ---------------------------------------------------------------- the meaning of visibility

  /** Some well-formed secret of the project that a scope allows. */
  ghost predicate Readable(scopes: seq<ScopePattern>, r: SecretRef) {
    r.Valid() && exists s :: s in scopes && s.Allows(r)
  }

  ghost predicate ProjectReached(scopes: seq<ScopePattern>, project: string) {
    exists r :: Readable(scopes, r) && r.project == project
  }

  ghost predicate EnvironmentReached(scopes: seq<ScopePattern>, project: string, environment: string) {
    exists r :: Readable(scopes, r) && r.project == project && r.environment == environment
  }

  ghost predicate FolderReached(scopes: seq<ScopePattern>, project: string, folder: string) {
    exists r :: Readable(scopes, r) && r.project == project && r.folder == Some(folder)
  }

  /** The projects, environments and folders that hold a readable secret, in order. */
  ghost function Projection(projects: seq<ProjectInfo>, scopes: seq<ScopePattern>): seq<ProjectInfo> {
    if projects == [] then []
    else
      var p := projects[0];
      (if ProjectReached(scopes, p.slug)
       then [p.(environments := Retain(p.environments,
                                       (e: EnvironmentInfo) => EnvironmentReached(scopes, p.slug, e.slug)),
                folders := Retain(p.folders, (f: FolderInfo) => FolderReached(scopes, p.slug, f.slug)))]
       else [])
      + Projection(projects[1..], scopes)
  }

  ghost predicate ValidSlugs(projects: seq<ProjectInfo>) {
    forall p :: p in projects ==>
      && IsSlug(p.slug)
      && (forall e :: e in p.environments ==> IsSlug(e.slug))
      && forall f :: f in p.folders ==> IsSlug(f.slug)
  }

  ghost predicate ValidScopes(scopes: seq<ScopePattern>) {
    forall s :: s in scopes ==> s.Valid()
  }

  lemma ScopesIndexable(scopes: seq<ScopePattern>)
    requires ValidScopes(scopes)
    ensures Indexable(scopes)
  {
    forall i | 0 <= i < |scopes| ensures PlaceOf(scopes[i]).slugs != [] {
      assert scopes[i] in scopes && scopes[i].Valid();
    }
  }

  lemma {:induction false} MineHas(project: string, scopes: seq<ScopePattern>, s: ScopePattern)
    requires Indexable(scopes) && s in scopes && PlaceOf(s).slugs[0] == project
    ensures PlaceOf(s) in Mine(project, scopes)
  {
    if scopes[0] != s {
      MineHas(project, scopes[1..], s);
    }
  }

  /** A scope behind one of the places found for a project. */
  lemma {:induction false} MineFrom(project: string, scopes: seq<ScopePattern>, m: Place) returns (s: ScopePattern)
    requires Indexable(scopes) && m in Mine(project, scopes)
    ensures s in scopes && m == PlaceOf(s) && m.slugs[0] == project
  {
    s := scopes[0];
    if m != PlaceOf(s) || m.slugs[0] != project {
      s := MineFrom(project, scopes[1..], m);
    }
  }

  /** The secret named K in some environment and folder. */
  function Sample(project: string, environment: string, folder: Option<string>): (r: SecretRef)
    requires IsSlug(project) && IsSlug(environment) && (folder.Some? ==> IsSlug(folder.value))
    ensures r.Valid() && r.project == project && r.environment == environment && r.folder == folder
  {
    SecretRef(project, environment, folder, "K")
  }

  lemma ProjectKept(scopes: seq<ScopePattern>, project: string)
    requires ValidScopes(scopes) && Indexable(scopes)
    requires IsSlug(project)
    ensures Mine(project, scopes) != [] <==> ProjectReached(scopes, project)
  {
    hide IsSlug, Mine;
    var mine := Mine(project, scopes);
    if mine != [] {
      var m := mine[0];
      var s := MineFrom(project, scopes, m);
      assert s.Valid();
      var r := match s
        case Exact(r) => r
        case Prefix(p) => Sample(project, if |p| > 1 then p[1] else project, if |p| > 2 then Some(p[2]) else None);
      assert s.Allows(r);
      assert Readable(scopes, r);
    }
    if ProjectReached(scopes, project) {
      var r :| Readable(scopes, r) && r.project == project;
      var s :| s in scopes && s.Allows(r);
      assert s.Valid();
      assert PlaceOf(s).slugs[0] == project;
      MineHas(project, scopes, s);
    }
  }

  lemma EnvironmentKeptReaches(scopes: seq<ScopePattern>, project: string, slug: string)
    requires ValidScopes(scopes) && Indexable(scopes)
    requires IsSlug(project) && IsSlug(slug)
    requires KeepEnvironment(Mine(project, scopes), slug)
    ensures EnvironmentReached(scopes, project, slug)
  {
    hide IsSlug, Mine;
    var mine := Mine(project, scopes);
    var m :| m in mine && (|m.slugs| == 1 || m.slugs[1] == slug);
    var s := MineFrom(project, scopes, m);
    assert s.Valid();
    var r := match s
      case Exact(r) => r
      case Prefix(p) => Sample(project, slug, if |p| > 2 then Some(p[2]) else None);
    assert s.Allows(r);
    assert Readable(scopes, r);
  }

  lemma EnvironmentKeptIsReached(scopes: seq<ScopePattern>, project: string, slug: string)
    requires ValidScopes(scopes) && Indexable(scopes)
    requires IsSlug(project) && IsSlug(slug)
    requires EnvironmentReached(scopes, project, slug)
    ensures KeepEnvironment(Mine(project, scopes), slug)
  {
    hide IsSlug, Mine;
    var r :| Readable(scopes, r) && r.project == project && r.environment == slug;
    var s :| s in scopes && s.Allows(r);
    assert s.Valid();
    var m := PlaceOf(s);
    assert m.slugs[0] == project && (|m.slugs| == 1 || m.slugs[1] == slug);
    MineHas(project, scopes, s);
  }

  lemma EnvironmentKept(scopes: seq<ScopePattern>, project: string, slug: string)
    requires ValidScopes(scopes) && Indexable(scopes)
    requires IsSlug(project) && IsSlug(slug)
    ensures KeepEnvironment(Mine(project, scopes), slug) <==> EnvironmentReached(scopes, project, slug)
  {
    hide KeepEnvironment, EnvironmentReached;
    if KeepEnvironment(Mine(project, scopes), slug) {
      EnvironmentKeptReaches(scopes, project, slug);
    }
    if EnvironmentReached(scopes, project, slug) {
      EnvironmentKeptIsReached(scopes, project, slug);
    }
  }

  lemma FolderKeptReaches(scopes: seq<ScopePattern>, project: string, slug: string)
    requires ValidScopes(scopes) && Indexable(scopes)
    requires IsSlug(project) && IsSlug(slug)
    requires KeepFolder(Mine(project, scopes), slug)
    ensures FolderReached(scopes, project, slug)
  {
    hide IsSlug, Mine;
    var mine := Mine(project, scopes);
    var m :| m in mine && ((m.prefix && |m.slugs| < 3) || (|m.slugs| > 2 && m.slugs[2] == slug));
    var s := MineFrom(project, scopes, m);
    assert s.Valid();
    var r := match s
      case Exact(r) => r
      case Prefix(p) => Sample(project, if |p| > 1 then p[1] else project, Some(slug));
    assert s.Allows(r);
    assert Readable(scopes, r);
  }

  lemma FolderKeptIsReached(scopes: seq<ScopePattern>, project: string, slug: string)
    requires ValidScopes(scopes) && Indexable(scopes)
    requires IsSlug(project) && IsSlug(slug)
    requires FolderReached(scopes, project, slug)
    ensures KeepFolder(Mine(project, scopes), slug)
  {
    hide IsSlug, Mine;
    var r :| Readable(scopes, r) && r.project == project && r.folder == Some(slug);
    var s :| s in scopes && s.Allows(r);
    assert s.Valid();
    var m := PlaceOf(s);
    assert m.slugs[0] == project && ((m.prefix && |m.slugs| < 3) || (|m.slugs| > 2 && m.slugs[2] == slug));
    MineHas(project, scopes, s);
  }

  lemma FolderKept(scopes: seq<ScopePattern>, project: string, slug: string)
    requires ValidScopes(scopes) && Indexable(scopes)
    requires IsSlug(project) && IsSlug(slug)
    ensures KeepFolder(Mine(project, scopes), slug) <==> FolderReached(scopes, project, slug)
  {
    hide KeepFolder, FolderReached;
    if KeepFolder(Mine(project, scopes), slug) {
      FolderKeptReaches(scopes, project, slug);
    }
    if FolderReached(scopes, project, slug) {
      FolderKeptIsReached(scopes, project, slug);
    }
  }

  lemma {:induction false} RetainSame<T>(xs: seq<T>, keep: T -> bool, other: T -> bool)
    requires forall x :: x in xs ==> keep(x) == other(x)
    ensures Retain(xs, keep) == Retain(xs, other)
  {
    if xs != [] {
      assert forall x :: x in xs[1..] ==> x in xs;
      RetainSame(xs[1..], keep, other);
    }
  }

  /** What is shown is exactly what holds a secret some scope allows. */
  lemma {:induction false} VisibleIsProjection(projects: seq<ProjectInfo>, scopes: seq<ScopePattern>)
    requires ValidSlugs(projects) && ValidScopes(scopes)
    ensures Indexable(scopes) && Visible(projects, scopes) == Projection(projects, scopes)
  {
    hide IsSlug, KeepEnvironment, KeepFolder, EnvironmentReached, FolderReached, ProjectReached;
    ScopesIndexable(scopes);
    if projects != [] {
      var p := projects[0];
      assert p in projects;
      assert forall q :: q in projects[1..] ==> q in projects;
      VisibleIsProjection(projects[1..], scopes);
      var mine := Mine(p.slug, scopes);
      ProjectKept(scopes, p.slug);
      forall e | e in p.environments
        ensures KeepEnvironment(mine, e.slug) == EnvironmentReached(scopes, p.slug, e.slug)
      {
        EnvironmentKept(scopes, p.slug, e.slug);
      }
      forall f | f in p.folders
        ensures KeepFolder(mine, f.slug) == FolderReached(scopes, p.slug, f.slug)
      {
        FolderKept(scopes, p.slug, f.slug);
      }
      RetainSame(p.environments, (e: EnvironmentInfo) => KeepEnvironment(mine, e.slug),
                 (e: EnvironmentInfo) => EnvironmentReached(scopes, p.slug, e.slug));
      RetainSame(p.folders, (f: FolderInfo) => KeepFolder(mine, f.slug),
                 (f: FolderInfo) => FolderReached(scopes, p.slug, f.slug));
    }
  }
}
