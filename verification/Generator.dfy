/** Password generation: classes of characters, the redraw loop, and what it can return. */
module Generator {
  import opened Common
  import opened ModularPower
  import opened Passwords

  const MIN_LENGTH: nat := 8
  const MAX_LENGTH: nat := 128
  const MAX_ATTEMPTS: nat := 1000

  const LOWERCASE := "abcdefghijklmnopqrstuvwxyz"
  const UPPERCASE := "ABCDEFGHIJKLMNOPQRSTUVWXYZ"
  const DIGITS := "0123456789"
  const SYMBOLS := "!#$%&()*+,-./:;<=>?@[]^_{}~"
  const AMBIGUOUS := "0O1Il"

  datatype Error = InvalidOptions | Rng

  datatype Options = Options(length: nat, lowercase: bool, uppercase: bool, digits: bool, symbols: bool,
                             avoidAmbiguous: bool)

  /** A password, and the fraction of all words over its pool that were acceptable. */
  datatype Generated = Generated(value: string, fraction: real)

  // ---------------------------------------------------------------- classes

  function Filtered(s: string, avoid: bool): string {
    if s == [] then []
    else (if avoid && s[0] in AMBIGUOUS then [] else [s[0]]) + Filtered(s[1..], avoid)
  }

  function IfSelected(selected: bool, alphabet: string, avoid: bool): seq<string> {
    if selected then [Filtered(alphabet, avoid)] else []
  }

  function ClassesOver(o: Options, lower: string, upper: string, digits: string, symbols: string): seq<string> {
    IfSelected(o.lowercase, lower, o.avoidAmbiguous) + IfSelected(o.uppercase, upper, o.avoidAmbiguous) +
    IfSelected(o.digits, digits, o.avoidAmbiguous) + IfSelected(o.symbols, symbols, o.avoidAmbiguous)
  }

  function Classes(o: Options): seq<string> {
    ClassesOver(o, LOWERCASE, UPPERCASE, DIGITS, SYMBOLS)
  }

  function Members(s: string): (m: set<char>)
    ensures forall c :: c in m <==> c in s
  {
    set c | c in s
  }

  function Pool(classes: seq<string>): string {
    if classes == [] then [] else Pool(classes[..|classes| - 1]) + classes[|classes| - 1]
  }

  function MemberSets(classes: seq<string>): seq<set<char>> {
    seq(|classes|, i requires 0 <= i < |classes| => Members(classes[i]))
  }

  function Lengths(classes: seq<string>): seq<nat> {
    seq(|classes|, i requires 0 <= i < |classes| => |classes[i]|)
  }

  ghost predicate Distinct(s: string) {
    forall i, j :: 0 <= i < j < |s| ==> s[i] != s[j]
  }

  /** No character twice in a class, nor in two classes. */
  ghost predicate Separate(classes: seq<string>) {
    && (forall i :: 0 <= i < |classes| ==> Distinct(classes[i]))
    && forall i, j :: 0 <= i < j < |classes| ==> Members(classes[i]) !! Members(classes[j])
  }

  lemma {:induction false} FilteredMembers(s: string, avoid: bool)
    ensures forall c :: c in Filtered(s, avoid) <==> c in s && !(avoid && c in AMBIGUOUS)
    ensures Distinct(s) ==> Distinct(Filtered(s, avoid))
  {
    if s != [] {
      FilteredMembers(s[1..], avoid);
      assert s == [s[0]] + s[1..];
      if Distinct(s) {
        assert Distinct(s[1..]);
        assert s[0] !in s[1..];
      }
    }
  }

  function Kind(c: char): nat {
    if 'a' <= c <= 'z' then 0 else if 'A' <= c <= 'Z' then 1 else if '0' <= c <= '9' then 2 else 3
  }

  ghost predicate Ascending(s: string) {
    forall i :: 0 <= i < |s| - 1 ==> s[i] < s[i + 1]
  }

  lemma {:induction false} AscendingOrdered(s: string, i: nat, j: nat)
    requires Ascending(s) && i < j < |s|
    ensures s[i] < s[j]
    decreases j
  {
    if i + 1 < j {
      AscendingOrdered(s, i, j - 1);
    }
  }

  lemma AscendingDistinct(s: string)
    requires Ascending(s)
    ensures Distinct(s)
  {
    forall i, j | 0 <= i < j < |s| ensures s[i] != s[j] {
      AscendingOrdered(s, i, j);
    }
  }

  ghost predicate Alphabet(s: string, kind: nat) {
    Distinct(s) && forall i :: 0 <= i < |s| ==> Kind(s[i]) == kind
  }

  lemma LowercaseAlphabet()
    ensures Alphabet(LOWERCASE, 0) && Ascending(LOWERCASE)
  {
    var s := LOWERCASE;
    forall i | 0 <= i < |s|
      ensures Kind(s[i]) == 0 && (i + 1 < |s| ==> s[i] < s[i + 1])
    {
      if i < 5 {} else if i < 10 {} else if i < 15 {} else if i < 20 {}
    }
    AscendingDistinct(s);
  }

  lemma UppercaseAlphabet()
    ensures Alphabet(UPPERCASE, 1) && Ascending(UPPERCASE)
  {
    var s := UPPERCASE;
    forall i | 0 <= i < |s|
      ensures Kind(s[i]) == 1 && (i + 1 < |s| ==> s[i] < s[i + 1])
    {
      if i < 5 {} else if i < 10 {} else if i < 15 {} else if i < 20 {}
    }
    AscendingDistinct(s);
  }

  lemma DigitAlphabet()
    ensures Alphabet(DIGITS, 2) && Ascending(DIGITS)
  {
    AscendingDistinct(DIGITS);
  }

  lemma SymbolAlphabet()
    ensures Alphabet(SYMBOLS, 3) && Ascending(SYMBOLS)
  {
    var s := SYMBOLS;
    forall i | 0 <= i < |s|
      ensures Kind(s[i]) == 3 && (i + 1 < |s| ==> s[i] < s[i + 1])
    {
      if i < 5 {} else if i < 10 {} else if i < 15 {} else if i < 20 {}
    }
    AscendingDistinct(s);
  }

  ghost predicate OfKinds(classes: seq<string>, lo: nat, hi: nat) {
    forall i, c :: 0 <= i < |classes| && c in classes[i] ==> lo <= Kind(c) < hi
  }

  lemma Singleton(selected: bool, s: string, avoid: bool, kind: nat)
    requires Alphabet(s, kind)
    ensures var classes := IfSelected(selected, s, avoid);
            Separate(classes) && OfKinds(classes, kind, kind + 1)
  {
    FilteredMembers(s, avoid);
  }

  lemma Appended(xs: seq<string>, ys: seq<string>, lo: nat, mid: nat, hi: nat)
    requires lo <= mid <= hi
    requires Separate(xs) && OfKinds(xs, lo, mid) && Separate(ys) && OfKinds(ys, mid, hi)
    ensures Separate(xs + ys) && OfKinds(xs + ys, lo, hi)
  {
    var all := xs + ys;
    forall i, c | 0 <= i < |all| && c in all[i]
      ensures if i < |xs| then lo <= Kind(c) < mid else mid <= Kind(c) < hi
    {
      if i >= |xs| {
        assert all[i] == ys[i - |xs|];
      }
    }
    forall i, j | 0 <= i < j < |all|
      ensures Members(all[i]) !! Members(all[j])
    {
      if j < |xs| {
        assert all[i] == xs[i] && all[j] == xs[j];
      } else if |xs| <= i {
        assert all[i] == ys[i - |xs|] && all[j] == ys[j - |xs|];
      } else {
        forall c | c in all[i] ensures c !in all[j] {
          assert lo <= Kind(c) < mid;
        }
      }
    }
  }

  predicate Survives(s: string, k: nat) {
    k < |s| && s[k] !in AMBIGUOUS
  }

  lemma NonemptyOver(o: Options, lower: string, upper: string, digits: string, symbols: string)
    requires Survives(lower, 0) && Survives(upper, 0) && Survives(digits, 2) && Survives(symbols, 0)
    ensures var classes := ClassesOver(o, lower, upper, digits, symbols);
            |classes| <= 4 && forall i :: 0 <= i < |classes| ==> classes[i] != []
  {
    hide Filtered, Survives;
    var avoid := o.avoidAmbiguous;
    SomethingLeft(lower, 0, avoid);
    SomethingLeft(upper, 0, avoid);
    SomethingLeft(digits, 2, avoid);
    SomethingLeft(symbols, 0, avoid);
  }

  lemma SomethingLeft(s: string, k: nat, avoid: bool)
    requires Survives(s, k)
    ensures Filtered(s, avoid) != []
  {
    FilteredMembers(s, avoid);
    assert s[k] in Filtered(s, avoid);
  }

  lemma ClassesNonempty(o: Options)
    ensures |Classes(o)| <= 4
    ensures forall i :: 0 <= i < |Classes(o)| ==> Classes(o)[i] != []
  {
    hide ClassesOver, Filtered;
    assert Survives(LOWERCASE, 0) && Survives(UPPERCASE, 0) && Survives(DIGITS, 2) && Survives(SYMBOLS, 0);
    NonemptyOver(o, LOWERCASE, UPPERCASE, DIGITS, SYMBOLS);
  }

  lemma SeparateOver(o: Options, lower: string, upper: string, digits: string, symbols: string)
    requires Alphabet(lower, 0) && Alphabet(upper, 1) && Alphabet(digits, 2) && Alphabet(symbols, 3)
    ensures Separate(ClassesOver(o, lower, upper, digits, symbols))
  {
    hide IfSelected, Alphabet, Separate, OfKinds;
    var avoid := o.avoidAmbiguous;
    Singleton(o.lowercase, lower, avoid, 0);
    Singleton(o.uppercase, upper, avoid, 1);
    Singleton(o.digits, digits, avoid, 2);
    Singleton(o.symbols, symbols, avoid, 3);
    var a, b := IfSelected(o.lowercase, lower, avoid), IfSelected(o.uppercase, upper, avoid);
    var c, d := IfSelected(o.digits, digits, avoid), IfSelected(o.symbols, symbols, avoid);
    Appended(a, b, 0, 1, 2);
    Appended(a + b, c, 0, 2, 3);
    Appended(a + b + c, d, 0, 3, 4);
  }

  /** Whatever the options, the classes share no character and repeat none. */
  lemma ClassesSeparate(o: Options)
    ensures Separate(Classes(o))
  {
    hide Alphabet, Separate, ClassesOver;
    LowercaseAlphabet();
    UppercaseAlphabet();
    DigitAlphabet();
    SymbolAlphabet();
    SeparateOver(o, LOWERCASE, UPPERCASE, DIGITS, SYMBOLS);
  }

  // ---------------------------------------------------------------- what each option selects

  lemma LowercaseMembers(c: char)
    ensures c in LOWERCASE <==> 'a' <= c <= 'z'
  {
    LowercaseAlphabet();
    var s := LOWERCASE;
    if 'a' <= c <= 'z' {
      var i := c as int - 'a' as int;
      assert s[i] == c by {
        if i < 5 {} else if i < 10 {} else if i < 15 {} else if i < 20 {}
      }
    }
  }

  lemma UppercaseMembers(c: char)
    ensures c in UPPERCASE <==> 'A' <= c <= 'Z'
  {
    UppercaseAlphabet();
    var s := UPPERCASE;
    if 'A' <= c <= 'Z' {
      var i := c as int - 'A' as int;
      assert s[i] == c by {
        if i < 5 {} else if i < 10 {} else if i < 15 {} else if i < 20 {}
      }
    }
  }

  lemma DigitMembers(c: char)
    ensures c in DIGITS <==> '0' <= c <= '9'
  {
    if '0' <= c <= '9' {
      assert DIGITS[c as int - '0' as int] == c;
    }
  }

  /** The character belongs to an alphabet that is selected, and is not an ambiguous one to be avoided. */
  predicate Wanted(o: Options, c: char) {
    && (|| (o.lowercase && 'a' <= c <= 'z')
        || (o.uppercase && 'A' <= c <= 'Z')
        || (o.digits && '0' <= c <= '9')
        || (o.symbols && c in "!#$%&()*+,-./:;<=>?@[]^_{}~"))
    && (o.avoidAmbiguous ==> c !in {'0', 'O', '1', 'I', 'l'})
  }

  lemma {:induction false} FilteredAscends(s: string, avoid: bool)
    requires Ascending(s)
    ensures Ascending(Filtered(s, avoid))
    ensures Filtered(s, avoid) != [] ==> s != [] && s[0] <= Filtered(s, avoid)[0]
  {
    if s != [] {
      var rest := s[1..];
      assert Ascending(rest) by {
        forall i | 0 <= i < |rest| - 1 ensures rest[i] < rest[i + 1] {
          assert rest[i] == s[i + 1] && rest[i + 1] == s[i + 2];
        }
      }
      FilteredAscends(rest, avoid);
      assert rest != [] ==> s[0] < rest[0];
    }
  }

  /** One alphabet gives one class if it is selected, in ascending order, without what is avoided. */
  ghost predicate ClassOf(given: seq<string>, selected: bool, alphabet: string, avoid: bool) {
    && |given| == (if selected then 1 else 0)
    && forall i :: 0 <= i < |given| ==>
         && Ascending(given[i])
         && forall c :: c in given[i] <==> c in alphabet && !(avoid && c in {'0', 'O', '1', 'I', 'l'})
  }

  lemma SelectedIs(selected: bool, alphabet: string, avoid: bool)
    requires Ascending(alphabet)
    ensures ClassOf(IfSelected(selected, alphabet, avoid), selected, alphabet, avoid)
  {
    hide Filtered, Ascending;
    FilteredAscends(alphabet, avoid);
    FilteredMembers(alphabet, avoid);
    forall c ensures c in AMBIGUOUS <==> c in {'0', 'O', '1', 'I', 'l'} {
      AmbiguousMembers(c);
    }
  }

  lemma AmbiguousMembers(c: char)
    ensures c in AMBIGUOUS <==> c in {'0', 'O', '1', 'I', 'l'}
  {
    assert AMBIGUOUS[0] == '0' && AMBIGUOUS[1] == 'O' && AMBIGUOUS[2] == '1' && AMBIGUOUS[3] == 'I'
        && AMBIGUOUS[4] == 'l';
  }

  /** The classes are the selected alphabets, in this order. */
  lemma ClassesAre(o: Options)
    ensures exists a, b, c, d ::
              && Classes(o) == a + b + c + d
              && ClassOf(a, o.lowercase, LOWERCASE, o.avoidAmbiguous)
              && ClassOf(b, o.uppercase, UPPERCASE, o.avoidAmbiguous)
              && ClassOf(c, o.digits, DIGITS, o.avoidAmbiguous)
              && ClassOf(d, o.symbols, SYMBOLS, o.avoidAmbiguous)
    ensures |Classes(o)| == (if o.lowercase then 1 else 0) + (if o.uppercase then 1 else 0)
                            + (if o.digits then 1 else 0) + (if o.symbols then 1 else 0)
  {
    hide IfSelected, Ascending, Alphabet;
    LowercaseAlphabet();
    UppercaseAlphabet();
    DigitAlphabet();
    SymbolAlphabet();
    SelectedIs(o.lowercase, LOWERCASE, o.avoidAmbiguous);
    SelectedIs(o.uppercase, UPPERCASE, o.avoidAmbiguous);
    SelectedIs(o.digits, DIGITS, o.avoidAmbiguous);
    SelectedIs(o.symbols, SYMBOLS, o.avoidAmbiguous);
  }

  lemma ClassMember(given: seq<string>, selected: bool, alphabet: string, avoid: bool, c: char)
    requires ClassOf(given, selected, alphabet, avoid)
    ensures (exists i :: 0 <= i < |given| && c in given[i]) <==>
            selected && c in alphabet && !(avoid && c in {'0', 'O', '1', 'I', 'l'})
  {
    if selected {
      assert given[0] in given;
    }
  }

  lemma MemberOfSum(a: seq<string>, b: seq<string>, c: char)
    ensures (exists i :: 0 <= i < |a + b| && c in (a + b)[i]) <==>
            (exists i :: 0 <= i < |a| && c in a[i]) || (exists i :: 0 <= i < |b| && c in b[i])
  {
    if i :| 0 <= i < |a| && c in a[i] {
      assert c in (a + b)[i];
    }
    if i :| 0 <= i < |b| && c in b[i] {
      assert c in (a + b)[|a| + i];
    }
  }

  /** The pool holds exactly the characters the options ask for. */
  lemma PoolIs(o: Options, c: char)
    ensures c in Pool(Classes(o)) <==> Wanted(o, c)
  {
    hide Classes, Pool, ClassOf, Ascending;
    ClassesAre(o);
    var x, y, z, w :|
      && Classes(o) == x + y + z + w
      && ClassOf(x, o.lowercase, LOWERCASE, o.avoidAmbiguous)
      && ClassOf(y, o.uppercase, UPPERCASE, o.avoidAmbiguous)
      && ClassOf(z, o.digits, DIGITS, o.avoidAmbiguous)
      && ClassOf(w, o.symbols, SYMBOLS, o.avoidAmbiguous);
    PoolMember(Classes(o), c);
    MemberOfSum(x + y + z, w, c);
    MemberOfSum(x + y, z, c);
    MemberOfSum(x, y, c);
    ClassMember(x, o.lowercase, LOWERCASE, o.avoidAmbiguous, c);
    ClassMember(y, o.uppercase, UPPERCASE, o.avoidAmbiguous, c);
    ClassMember(z, o.digits, DIGITS, o.avoidAmbiguous, c);
    ClassMember(w, o.symbols, SYMBOLS, o.avoidAmbiguous, c);
    LowercaseMembers(c);
    UppercaseMembers(c);
    DigitMembers(c);
  }
  // ---------------------------------------------------------------- the pool

  lemma {:induction false} DistinctSize(s: string)
    requires Distinct(s)
    ensures |Members(s)| == |s|
  {
    if s != [] {
      var last := s[|s| - 1];
      var front := s[..|s| - 1];
      assert s == front + [last];
      DistinctSize(front);
      assert Members(s) == Members(front) + {last};
    }
  }

  lemma {:induction false} PoolMember(classes: seq<string>, c: char)
    ensures c in Pool(classes) <==> exists i :: 0 <= i < |classes| && c in classes[i]
    decreases |classes|
  {
    if classes != [] {
      var k := |classes| - 1;
      PoolMember(classes[..k], c);
      if c in Pool(classes[..k]) {
        var i :| 0 <= i < |classes[..k]| && c in classes[..k][i];
        assert c in classes[i];
      }
      if exists i :: 0 <= i < |classes| && c in classes[i] {
        var i :| 0 <= i < |classes| && c in classes[i];
        assert i == k || c in classes[..k][i];
      }
    }
  }

  lemma DistinctConcat(a: string, b: string)
    requires Distinct(a) && Distinct(b) && forall c :: c in a ==> c !in b
    ensures Distinct(a + b)
  {
    forall i, j | 0 <= i < j < |a + b| ensures (a + b)[i] != (a + b)[j] {
      if i < |a| <= j {
        assert (a + b)[i] in a && (a + b)[j] in b;
      }
    }
  }

  lemma {:induction false} PoolDistinct(classes: seq<string>)
    requires Separate(classes)
    ensures Distinct(Pool(classes)) && |Pool(classes)| == Total(Lengths(classes))
    decreases |classes|
  {
    if classes != [] {
      var k := |classes| - 1;
      PoolDistinct(classes[..k]);
      assert Lengths(classes)[..k] == Lengths(classes[..k]);
      forall c | c in Pool(classes[..k]) ensures c !in classes[k] {
        PoolMember(classes[..k], c);
        var i :| 0 <= i < k && c in classes[..k][i];
        assert c in Members(classes[i]) && Members(classes[i]) !! Members(classes[k]);
      }
      DistinctConcat(Pool(classes[..k]), classes[k]);
    }
  }

  lemma PoolClasses(classes: seq<string>)
    requires Separate(classes)
    ensures DisjointWithin(Members(Pool(classes)), MemberSets(classes))
    ensures Sizes(MemberSets(classes)) == Lengths(classes)
    ensures |Members(Pool(classes))| == |Pool(classes)| == Total(Lengths(classes))
  {
    PoolDistinct(classes);
    DistinctSize(Pool(classes));
    forall i | 0 <= i < |classes|
      ensures Members(classes[i]) <= Members(Pool(classes)) && |Members(classes[i])| == |classes[i]|
    {
      DistinctSize(classes[i]);
      forall c | c in classes[i] ensures c in Pool(classes) {
        PoolMember(classes, c);
      }
    }
  }

  // ---------------------------------------------------------------- drawing

  predicate Below(draws: seq<nat>, n: nat) {
    forall i :: 0 <= i < |draws| ==> draws[i] < n
  }

  /** One block of index draws, spelled over the pool. */
  function Spelled(pool: string, block: seq<nat>): string
    requires Below(block, |pool|)
  {
    seq(|block|, i requires 0 <= i < |block| => pool[block[i]])
  }

  predicate Accepts(classes: seq<string>, value: string) {
    forall i :: 0 <= i < |classes| ==> Meets(value, Members(classes[i]))
  }

  /** The first block of draws whose word uses every class, among so many attempts. */
  function FirstAccepted(classes: seq<string>, len: nat, draws: seq<nat>, attempts: nat): Result<string, Error>
    requires Below(draws, |Pool(classes)|)
  {
    if attempts == 0 || |draws| < len then Err(Rng)
    else
      var value := Spelled(Pool(classes), draws[..len]);
      if Accepts(classes, value) then Ok(value)
      else FirstAccepted(classes, len, draws[len..], attempts - 1)
  }

  function Acceptable(classes: seq<string>, len: nat): set<string> {
    Using(Members(Pool(classes)), len, MemberSets(classes))
  }

  lemma SpelledAccepted(classes: seq<string>, len: nat, block: seq<nat>)
    requires |block| == len && Below(block, |Pool(classes)|)
    ensures Accepts(classes, Spelled(Pool(classes), block)) <==>
            Spelled(Pool(classes), block) in Acceptable(classes, len)
  {
    var w := Spelled(Pool(classes), block);
    WordsMember(Members(Pool(classes)), len, w);
    assert forall i :: 0 <= i < |classes| ==> MemberSets(classes)[i] == Members(classes[i]);
  }

  /** Everything returned is acceptable. */
  lemma {:induction false} ReturnsAcceptable(classes: seq<string>, len: nat, draws: seq<nat>, attempts: nat)
    requires Below(draws, |Pool(classes)|)
    ensures var r := FirstAccepted(classes, len, draws, attempts);
            r.Ok? ==> r.value in Acceptable(classes, len)
    decreases attempts
  {
    if attempts > 0 && |draws| >= len {
      SpelledAccepted(classes, len, draws[..len]);
      ReturnsAcceptable(classes, len, draws[len..], attempts - 1);
    }
  }

  /** A block of draws that spells w. */
  ghost function BlockOf(pool: string, w: string): (block: seq<nat>)
    requires forall c :: c in w ==> c in pool
    ensures |block| == |w| && Below(block, |pool|) && Spelled(pool, block) == w
  {
    if w == [] then []
    else
      assert w[0] in w && w == [w[0]] + w[1..];
      var d: nat :| d < |pool| && pool[d] == w[0];
      var rest := BlockOf(pool, w[1..]);
      assert Spelled(pool, [d] + rest) == [w[0]] + Spelled(pool, rest);
      [d] + rest
  }

  ghost predicate BlockSpells(pool: string, block: seq<nat>, w: string) {
    |block| == |w| && Below(block, |pool|) && Spelled(pool, block) == w
  }

  /** Each acceptable password is spelled by exactly one block of draws, so all are equally likely. */
  lemma OneBlockEach(classes: seq<string>, len: nat, w: string)
    requires Separate(classes) && w in Acceptable(classes, len)
    ensures |w| == len && exists block :: BlockSpells(Pool(classes), block, w)
    ensures forall b, c :: BlockSpells(Pool(classes), b, w) && BlockSpells(Pool(classes), c, w) ==> b == c
  {
    var pool := Pool(classes);
    WordsMember(Members(pool), len, w);
    assert BlockSpells(pool, BlockOf(pool, w), w);
    PoolDistinct(classes);
    forall b, c | BlockSpells(pool, b, w) && BlockSpells(pool, c, w)
      ensures b == c
    {
      forall i | 0 <= i < len ensures b[i] == c[i] {
        assert pool[b[i]] == w[i] == pool[c[i]];
      }
    }
  }

  /** Each draw of the block, looked up in the pool, spells w. */
  ghost predicate SpelledBy(pool: string, block: seq<nat>, w: string) {
    |w| == |block| && forall i :: 0 <= i < |block| ==> block[i] < |pool| && w[i] == pool[block[i]]
  }

  ghost predicate SpelledAt(pool: string, len: nat, draws: seq<nat>, at: nat, w: string) {
    at + len <= |draws| && SpelledBy(pool, draws[at..at + len], w)
  }

  /** Attempt number k spells w. */
  ghost predicate Attempt(pool: string, len: nat, draws: seq<nat>, k: nat, w: string) {
    SpelledAt(pool, len, draws, k * len, w)
  }

  /** w is what the first attempt spelled that uses every class. */
  ghost predicate FirstGood(classes: seq<string>, len: nat, draws: seq<nat>, k: nat, w: string) {
    && Attempt(Pool(classes), len, draws, k, w) && w in Acceptable(classes, len)
    && forall j: nat, v :: j < k && Attempt(Pool(classes), len, draws, j, v) ==> v !in Acceptable(classes, len)
  }

  lemma NextBlock(pool: string, len: nat, draws: seq<nat>, k: nat, w: string)
    requires len <= |draws|
    ensures Attempt(pool, len, draws[len..], k, w) <==> Attempt(pool, len, draws, k + 1, w)
  {
    hide SpelledAt;
    assert (k + 1) * len == len + k * len;
    ShiftedAt(pool, len, draws, k * len, w);
  }

  lemma ShiftedAt(pool: string, len: nat, draws: seq<nat>, at: nat, w: string)
    requires len <= |draws|
    ensures SpelledAt(pool, len, draws[len..], at, w) <==> SpelledAt(pool, len, draws, len + at, w)
  {
    hide SpelledBy;
    var later, there := draws[len..], len + at;
    if at + len <= |later| {
      assert later[at..at + len] == draws[there..there + len];
    }
  }

  lemma FirstBlock(pool: string, len: nat, draws: seq<nat>, w: string)
    requires Below(draws, |pool|)
    ensures Attempt(pool, len, draws, 0, w) <==> len <= |draws| && w == Spelled(pool, draws[..len])
  {
  }

  lemma Later(classes: seq<string>, len: nat, draws: seq<nat>, k: nat, w: string)
    requires len <= |draws| && FirstGood(classes, len, draws, k + 1, w)
    ensures FirstGood(classes, len, draws[len..], k, w)
  {
    hide Attempt, Pool, Acceptable;
    NextBlock(Pool(classes), len, draws, k, w);
    forall j: nat, v | j < k && Attempt(Pool(classes), len, draws[len..], j, v)
      ensures v !in Acceptable(classes, len)
    {
      NextBlock(Pool(classes), len, draws, j, v);
    }
  }

  /** The word of the first attempt that uses every class is the answer, if it is within the attempts allowed. */
  lemma {:induction false} FirstGoodIsReturned(classes: seq<string>, len: nat, draws: seq<nat>, attempts: nat, k: nat,
                                               w: string)
    requires Below(draws, |Pool(classes)|) && k < attempts && FirstGood(classes, len, draws, k, w)
    ensures FirstAccepted(classes, len, draws, attempts) == Ok(w)
    decreases attempts
  {
    hide Attempt, Pool, Acceptable, Spelled, Accepts;
    var pool := Pool(classes);
    EnoughDraws(pool, len, draws, k, w);
    var v := Spelled(pool, draws[..len]);
    FirstBlock(pool, len, draws, v);
    FirstBlock(pool, len, draws, w);
    SpelledAccepted(classes, len, draws[..len]);
    if k > 0 {
      Later(classes, len, draws, k - 1, w);
      FirstGoodIsReturned(classes, len, draws[len..], attempts - 1, k - 1, w);
    }
  }

  lemma EnoughDraws(pool: string, len: nat, draws: seq<nat>, k: nat, w: string)
    requires Attempt(pool, len, draws, k, w)
    ensures len <= |draws|
  {
    assert k * len >= 0;
  }

  /** Without such an attempt there is no answer. */
  lemma {:induction false} NoneIsReturned(classes: seq<string>, len: nat, draws: seq<nat>, attempts: nat)
    requires Below(draws, |Pool(classes)|)
    requires forall k: nat, w :: k < attempts && Attempt(Pool(classes), len, draws, k, w) ==>
                                   w !in Acceptable(classes, len)
    ensures FirstAccepted(classes, len, draws, attempts) == Err(Rng)
    decreases attempts
  {
    hide Attempt, Pool, Acceptable, Spelled, Accepts;
    if attempts > 0 && len <= |draws| {
      var pool := Pool(classes);
      FirstBlock(pool, len, draws, Spelled(pool, draws[..len]));
      SpelledAccepted(classes, len, draws[..len]);
      forall k: nat, w | k < attempts - 1 && Attempt(pool, len, draws[len..], k, w)
        ensures w !in Acceptable(classes, len)
      {
        NextBlock(pool, len, draws, k, w);
      }
      NoneIsReturned(classes, len, draws[len..], attempts - 1);
    }
  }

  lemma NextAttempt(classes: seq<string>, len: nat, draws: seq<nat>, next: nat, attempts: nat)
    requires Below(draws, |Pool(classes)|) && next <= |draws| && attempts > 0
    ensures var left := draws[next..];
            if |left| < len then FirstAccepted(classes, len, left, attempts) == Err(Rng)
            else
              var value := Spelled(Pool(classes), draws[next..next + len]);
              FirstAccepted(classes, len, left, attempts) ==
              if Accepts(classes, value) then Ok(value)
              else FirstAccepted(classes, len, draws[next + len..], attempts - 1)
  {
    if next + len <= |draws| {
      DropOfDrop(draws, next, len);
      assert draws[next..][..len] == draws[next..next + len];
    }
  }

  /** One word from the stream, or nothing once the generator fails. */
  method DrawWord(pool: string, len: nat, draws: seq<nat>, start: nat) returns (value: Option<string>)
    requires Below(draws, |pool|) && start <= |draws|
    ensures value == if start + len <= |draws| then Some(Spelled(pool, draws[start..start + len])) else None
    ensures value.Some? ==>
              |value.value| == len && forall i :: 0 <= i < len ==> value.value[i] == pool[draws[start + i]]
  {
    var text := "";
    while |text| < len
      invariant |text| <= len && start + |text| <= |draws|
      invariant text == Spelled(pool, draws[start..start + |text|])
    {
      if start + |text| == |draws| {
        return None;
      }
      text := text + [pool[draws[start + |text|]]];
    }
    value := Some(text);
  }

  method GeneratePassword(o: Options, draws: seq<nat>) returns (r: Result<Generated, Error>)
    requires Below(draws, |Pool(Classes(o))|)
    ensures r == Err(InvalidOptions) <==> !(8 <= o.length <= 128) || Classes(o) == []
    ensures r.Ok? ==> FirstAccepted(Classes(o), o.length, draws, 1000) == Ok(r.value.value)
    ensures r == Err(Rng) ==> FirstAccepted(Classes(o), o.length, draws, 1000).Err?
    ensures r.Ok? ==>
              r.value.fraction * Pow(|Pool(Classes(o))|, o.length) as real
              == |Acceptable(Classes(o), o.length)| as real
  {
    hide Classes, Pool, Spelled, Accepts, Acceptable, FirstAccepted, Pow, Lengths;
    if !(MIN_LENGTH <= o.length <= MAX_LENGTH) {
      return Err(InvalidOptions);
    }
    var classes := Classes(o);
    if classes == [] {
      return Err(InvalidOptions);
    }
    var pool := Pool(classes);
    var next: nat, attempt: nat := 0, 0;
    assert draws[0..] == draws;
    while attempt < MAX_ATTEMPTS
      invariant 0 <= attempt <= MAX_ATTEMPTS && next <= |draws|
      invariant FirstAccepted(classes, o.length, draws, MAX_ATTEMPTS)
             == FirstAccepted(classes, o.length, draws[next..], MAX_ATTEMPTS - attempt)
    {
      NextAttempt(classes, o.length, draws, next, MAX_ATTEMPTS - attempt);
      var value := DrawWord(pool, o.length, draws, next);
      if value.None? {
        return Err(Rng);
      }
      if Accepts(classes, value.value) {
        var fraction := FractionOf(o);
        return Ok(Generated(value.value, fraction));
      }
      next := next + o.length;
      attempt := attempt + 1;
    }
    NoAttempts(classes, o.length, draws[next..]);
    return Err(Rng);
  }

  lemma NoAttempts(classes: seq<string>, len: nat, draws: seq<nat>)
    requires Below(draws, |Pool(classes)|)
    ensures FirstAccepted(classes, len, draws, 0) == Err(Rng)
  {
  }

  /** The reported fraction, of all words, is the share that could have been returned. */
  method FractionOf(o: Options) returns (fraction: real)
    requires MIN_LENGTH <= o.length <= MAX_LENGTH && Classes(o) != []
    ensures fraction * Pow(|Pool(Classes(o))|, o.length) as real == |Acceptable(Classes(o), o.length)| as real
  {
    hide Classes, Using, Pow, Words, Pool, Separate;
    var classes := Classes(o);
    ClassesSeparate(o);
    PoolClasses(classes);
    ClassesNonempty(o);
    CountIsExact(Members(Pool(classes)), o.length, MemberSets(classes));
    fraction := FractionValid(o.length, Lengths(classes));
  }
}
