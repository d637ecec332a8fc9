/** The order secret paths are listed in, and stable sorting by it. */
module Order {
  import opened Common
  import opened Scope

  /** Rust compares strings by their UTF-8 bytes, which is the order of their characters. */
  predicate TextLeq(a: string, b: string) {
    if a == [] then true
    else if b == [] then false
    else a[0] < b[0] || (a[0] == b[0] && TextLeq(a[1..], b[1..]))
  }

  predicate FolderLeq(a: Option<string>, b: Option<string>) {
    a.None? || (b.Some? && TextLeq(a.value, b.value))
  }

  /** The derived order: project, then environment, then folder, then key. */
  predicate Leq(a: SecretRef, b: SecretRef) {
    if a.project != b.project then TextLeq(a.project, b.project)
    else if a.environment != b.environment then TextLeq(a.environment, b.environment)
    else if a.folder != b.folder then FolderLeq(a.folder, b.folder)
    else TextLeq(a.key, b.key)
  }

  /** Text goes by its first difference; a prefix comes first. */
  lemma {:induction false} TextByFirstDifference(a: string, b: string)
    ensures TextLeq(a, b) <==> a <= b || exists k: nat :: FirstDifference(a, b, k) && a[k] < b[k]
  {
    if a != [] && b != [] {
      var x, y := a[1..], b[1..];
      TextByFirstDifference(x, y);
      assert a == [a[0]] + x && b == [b[0]] + y;
      if a[0] == b[0] {
        assert a <= b <==> x <= y;
        forall k: nat ensures FirstDifference(x, y, k) <==> FirstDifference(a, b, k + 1) {
          ShiftedDifference(a, b, k);
        }
        if k: nat :| FirstDifference(a, b, k) && a[k] < b[k] {
          assert FirstDifference(x, y, k - 1);
        }
        if k: nat :| FirstDifference(x, y, k) && x[k] < y[k] {
          assert FirstDifference(a, b, k + 1);
        }
      } else {
        assert FirstDifference(a, b, 0);
      }
    }
  }

  ghost predicate FirstDifference(a: string, b: string, k: nat) {
    k < |a| && k < |b| && a[k] != b[k] && forall i :: 0 <= i < k ==> a[i] == b[i]
  }

  lemma ShiftedDifference(a: string, b: string, k: nat)
    requires a != [] && b != [] && a[0] == b[0]
    ensures FirstDifference(a[1..], b[1..], k) <==> FirstDifference(a, b, k + 1)
  {
    if FirstDifference(a[1..], b[1..], k) {
      forall i | 0 <= i < k + 1 ensures a[i] == b[i] {
        assert i == 0 || a[1..][i - 1] == b[1..][i - 1];
      }
    }
    if FirstDifference(a, b, k + 1) {
      forall i | 0 <= i < k ensures a[1..][i] == b[1..][i] {
        assert a[i + 1] == b[i + 1];
      }
    }
  }

  /** Paths go by project, then environment, then folder, those without one first, then key. */
  lemma RefByFields(a: SecretRef, b: SecretRef)
    ensures a.project != b.project ==> (Leq(a, b) <==> TextLeq(a.project, b.project))
    ensures a.project == b.project && a.environment != b.environment ==>
              (Leq(a, b) <==> TextLeq(a.environment, b.environment))
    ensures a.project == b.project && a.environment == b.environment && a.folder != b.folder ==>
              (Leq(a, b) <==> a.folder == None || (b.folder != None && TextLeq(a.folder.value, b.folder.value)))
    ensures a == b.(key := a.key) ==> (Leq(a, b) <==> TextLeq(a.key, b.key))
  {
  }

  lemma {:induction false} TextOrder(a: string, b: string, c: string)
    ensures TextLeq(a, b) || TextLeq(b, a)
    ensures TextLeq(a, b) && TextLeq(b, a) ==> a == b
    ensures TextLeq(a, b) && TextLeq(b, c) ==> TextLeq(a, c)
  {
    if a != [] && b != [] {
      TextOrder(a[1..], b[1..], if c == [] then [] else c[1..]);
      if a[0] == b[0] && a[1..] == b[1..] {
        assert a == [a[0]] + a[1..] && b == [b[0]] + b[1..];
      }
    }
  }

  lemma FolderOrder(a: Option<string>, b: Option<string>, c: Option<string>)
    ensures FolderLeq(a, b) || FolderLeq(b, a)
    ensures FolderLeq(a, b) && FolderLeq(b, a) ==> a == b
    ensures FolderLeq(a, b) && FolderLeq(b, c) ==> FolderLeq(a, c)
  {
    TextOrder(if a.Some? then a.value else "", if b.Some? then b.value else "", if c.Some? then c.value else "");
  }

  /** Paths are totally ordered. */
  lemma RefOrder(a: SecretRef, b: SecretRef, c: SecretRef)
    ensures Leq(a, b) || Leq(b, a)
    ensures Leq(a, b) && Leq(b, a) ==> a == b
    ensures Leq(a, b) && Leq(b, c) ==> Leq(a, c)
  {
    hide TextLeq, FolderLeq;
    TextOrder(a.project, b.project, c.project);
    TextOrder(a.environment, b.environment, c.environment);
    FolderOrder(a.folder, b.folder, c.folder);
    TextOrder(a.key, b.key, c.key);
  }

  // ---------------------------------------------------------------- stable sorting

  /** Puts x after everything that is not greater. */
  function Insert<V>(sorted: seq<(SecretRef, V)>, x: (SecretRef, V)): seq<(SecretRef, V)> {
    if sorted == [] || !Leq(sorted[0].0, x.0) then [x] + sorted
    else [sorted[0]] + Insert(sorted[1..], x)
  }

  /** Rust's stable `sort_by` on the path. */
  function Sort<V>(xs: seq<(SecretRef, V)>): seq<(SecretRef, V)> {
    if xs == [] then [] else Insert(Sort(xs[..|xs| - 1]), xs[|xs| - 1])
  }

  ghost predicate Sorted<V>(xs: seq<(SecretRef, V)>) {
    forall i, j :: 0 <= i < j < |xs| ==> Leq(xs[i].0, xs[j].0)
  }

  /** The entries for one path, in order. */
  function For<V>(xs: seq<(SecretRef, V)>, r: SecretRef): seq<V> {
    if xs == [] then [] else (if xs[0].0 == r then [xs[0].1] else []) + For(xs[1..], r)
  }

  lemma {:induction false} ForConcat<V>(a: seq<(SecretRef, V)>, b: seq<(SecretRef, V)>, r: SecretRef)
    ensures For(a + b, r) == For(a, r) + For(b, r)
  {
    if a == [] {
      assert a + b == b;
    } else {
      ForConcat(a[1..], b, r);
      assert (a + b)[1..] == a[1..] + b;
      Associative(if a[0].0 == r then [a[0].1] else [], For(a[1..], r), For(b, r));
    }
  }

  lemma ForOne<V>(x: (SecretRef, V), r: SecretRef)
    ensures For([x], r) == if x.0 == r then [x.1] else []
  {
    assert [x][1..] == [];
  }

  lemma {:induction false} ForNone<V>(xs: seq<(SecretRef, V)>, r: SecretRef)
    ensures For(xs, r) == [] <==> forall i :: 0 <= i < |xs| ==> xs[i].0 != r
  {
    if xs != [] {
      ForNone(xs[1..], r);
      if forall i :: 0 <= i < |xs| ==> xs[i].0 != r {
        forall i | 0 <= i < |xs[1..]| ensures xs[1..][i].0 != r {
          assert xs[1..][i] == xs[i + 1];
        }
      } else if xs[0].0 != r {
        var i :| 0 <= i < |xs| && xs[i].0 == r;
        assert xs[1..][i - 1] == xs[i];
      }
    }
  }

  lemma SortedCons<V>(x: (SecretRef, V), xs: seq<(SecretRef, V)>)
    requires Sorted(xs) && (xs != [] ==> Leq(x.0, xs[0].0))
    ensures Sorted([x] + xs)
  {
    var all := [x] + xs;
    forall i, j | 0 <= i < j < |all| ensures Leq(all[i].0, all[j].0) {
      if i == 0 {
        RefOrder(x.0, xs[0].0, xs[j - 1].0);
        RefOrder(xs[0].0, xs[0].0, xs[0].0);
      }
    }
  }

  lemma {:induction false} InsertSorts<V>(sorted: seq<(SecretRef, V)>, x: (SecretRef, V))
    requires Sorted(sorted)
    ensures Sorted(Insert(sorted, x)) && Insert(sorted, x) != []
    ensures Insert(sorted, x)[0] == x || (sorted != [] && Insert(sorted, x)[0] == sorted[0])
  {
    hide Leq;
    if sorted == [] || !Leq(sorted[0].0, x.0) {
      if sorted != [] {
        RefOrder(sorted[0].0, x.0, x.0);
      }
      SortedCons(x, sorted);
    } else {
      var tail := sorted[1..];
      InsertSorts(tail, x);
      SortedCons(sorted[0], Insert(tail, x));
    }
  }

  /** Inserting keeps each path's entries in order, the new one last. */
  lemma {:induction false} InsertStable<V>(sorted: seq<(SecretRef, V)>, x: (SecretRef, V), r: SecretRef)
    requires Sorted(sorted)
    ensures For(Insert(sorted, x), r) == For(sorted, r) + For([x], r)
  {
    hide Leq;
    if sorted == [] {
      assert [x] + sorted == [x];
    } else if !Leq(sorted[0].0, x.0) {
      ForConcat([x], sorted, r);
      ForOne(x, r);
      if r == x.0 {
        GreaterHasNone(sorted, r);
      }
    } else {
      InsertStable(sorted[1..], x, r);
      ForConcat([sorted[0]], Insert(sorted[1..], x), r);
      ForConcat([sorted[0]], sorted[1..], r);
      assert [sorted[0]] + sorted[1..] == sorted;
      Associative(For([sorted[0]], r), For(sorted[1..], r), For([x], r));
    }
  }

  lemma GreaterHasNone<V>(sorted: seq<(SecretRef, V)>, r: SecretRef)
    requires Sorted(sorted) && sorted != [] && !Leq(sorted[0].0, r)
    ensures For(sorted, r) == []
  {
    hide Leq;
    forall i | 0 <= i < |sorted| ensures sorted[i].0 != r {
      RefOrder(sorted[0].0, sorted[i].0, r);
      RefOrder(sorted[i].0, sorted[i].0, r);
    }
    ForNone(sorted, r);
  }

  /** Sorting orders the entries and keeps each path's entries, in their order. */
  lemma {:induction false} SortStable<V>(xs: seq<(SecretRef, V)>)
    ensures Sorted(Sort(xs)) && forall r :: For(Sort(xs), r) == For(xs, r)
    decreases |xs|
  {
    if xs != [] {
      var front, x := xs[..|xs| - 1], xs[|xs| - 1];
      SortStable(front);
      InsertSorts(Sort(front), x);
      forall r ensures For(Sort(xs), r) == For(xs, r) {
        InsertStable(Sort(front), x, r);
        ForConcat(front, [x], r);
        assert front + [x] == xs;
      }
    }
  }
}
