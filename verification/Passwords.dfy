/** The redraw loop of zvault-passwords and the inclusion-exclusion count behind the entropy it reports. */
module Passwords {
  // The count's floating-point sum is modelled over the reals; the outcome of each random index draw is an input.

  import opened Common
  import opened ModularPower

  // ---------------------------------------------------------------- words

  function Prefixed(c: char, ws: set<string>): set<string> {
    set w | w in ws :: [c] + w
  }

  function Product(pool: set<char>, ws: set<string>): set<string> {
    set c, w | c in pool && w in ws :: [c] + w
  }

  function Words(pool: set<char>, len: nat): set<string> {
    if len == 0 then {[]} else Product(pool, Words(pool, len - 1))
  }

  ghost predicate Spells(pool: set<char>, len: nat, w: string) {
    |w| == len && forall c :: c in w ==> c in pool
  }

  lemma {:induction false} WordsMember(pool: set<char>, len: nat, w: string)
    ensures w in Words(pool, len) <==> Spells(pool, len, w)
  {
    if len > 0 {
      if w in Words(pool, len) {
        var c, v :| c in pool && v in Words(pool, len - 1) && w == [c] + v;
        WordsMember(pool, len - 1, v);
      }
      if Spells(pool, len, w) {
        WordsMember(pool, len - 1, w[1..]);
        assert w == [w[0]] + w[1..];
      }
    }
  }

  lemma WordsMembers(pool: set<char>, len: nat)
    ensures forall w :: w in Words(pool, len) <==> Spells(pool, len, w)
  {
    forall w ensures w in Words(pool, len) <==> Spells(pool, len, w) {
      WordsMember(pool, len, w);
    }
  }

  lemma PrefixedMember(c: char, ws: set<string>, w: string)
    ensures [c] + w in Prefixed(c, ws) <==> w in ws
  {
    if [c] + w in Prefixed(c, ws) {
      var v :| v in ws && [c] + v == [c] + w;
      assert v == ([c] + v)[1..] && w == ([c] + w)[1..];
    }
  }

  lemma {:induction false} PrefixedSize(c: char, ws: set<string>)
    ensures |Prefixed(c, ws)| == |ws|
  {
    if ws != {} {
      var w :| w in ws;
      PrefixedSize(c, ws - {w});
      PrefixedMember(c, ws - {w}, w);
      assert Prefixed(c, ws) == Prefixed(c, ws - {w}) + {[c] + w};
    }
  }

  lemma ProductSplits(pool: set<char>, a: char, ws: set<string>)
    requires a in pool
    ensures Product(pool, ws) == Prefixed(a, ws) + Product(pool - {a}, ws)
    ensures Prefixed(a, ws) !! Product(pool - {a}, ws)
  {
    forall w | w in Prefixed(a, ws) ensures w != [] && w[0] == a {
    }
    forall w | w in Product(pool - {a}, ws) ensures w != [] && w[0] != a {
    }
    forall w | w in Product(pool, ws)
      ensures w in Prefixed(a, ws) + Product(pool - {a}, ws)
    {
      var c, v :| c in pool && v in ws && w == [c] + v;
      if c == a {
        assert w in Prefixed(a, ws);
      } else {
        assert w in Product(pool - {a}, ws);
      }
    }
  }

  lemma EmptyProduct(ws: set<string>)
    ensures Product({}, ws) == {}
  {
  }

  lemma {:induction false} ProductSize(pool: set<char>, ws: set<string>)
    ensures |Product(pool, ws)| == |pool| * |ws|
  {
    hide Product, Prefixed;
    if pool == {} {
      EmptyProduct(ws);
    } else {
      var a :| a in pool;
      var others := pool - {a};
      PrefixedSize(a, ws);
      ProductSize(others, ws);
      ProductSplits(pool, a, ws);
      assert |pool| == |others| + 1;
      assert |pool| * |ws| == |ws| + |others| * |ws|;
    }
  }

  lemma {:induction false} WordsSize(pool: set<char>, len: nat)
    ensures |Words(pool, len)| == Pow(|pool|, len)
  {
    if len > 0 {
      WordsSize(pool, len - 1);
      ProductSize(pool, Words(pool, len - 1));
    }
  }

  // ---------------------------------------------------------------- inclusion-exclusion

  predicate Meets(w: string, members: set<char>) {
    exists c :: c in w && c in members
  }

  /** The words over the pool that use every class. */
  function Using(pool: set<char>, len: nat, classes: seq<set<char>>): set<string> {
    set w | w in Words(pool, len) && forall i :: 0 <= i < |classes| ==> Meets(w, classes[i])
  }

  ghost predicate DisjointWithin(pool: set<char>, classes: seq<set<char>>) {
    && (forall i :: 0 <= i < |classes| ==> classes[i] <= pool)
    && forall i, j :: 0 <= i < j < |classes| ==> classes[i] !! classes[j]
  }

  function Sizes(classes: seq<set<char>>): seq<nat> {
    seq(|classes|, i requires 0 <= i < |classes| => |classes[i]|)
  }

  function Total(sizes: seq<nat>): nat {
    if sizes == [] then 0 else Total(sizes[..|sizes| - 1]) + sizes[|sizes| - 1]
  }

  /** Words using all classes: those using all but the last, less those that also avoid it. */
  function Count(pool: nat, len: nat, sizes: seq<nat>): int
    requires Total(sizes) <= pool
    decreases |sizes|
  {
    if sizes == [] then Pow(pool, len)
    else
      var most, last := sizes[..|sizes| - 1], sizes[|sizes| - 1];
      Count(pool, len, most) - Count(pool - last, len, most)
  }

  lemma UsingSplits(pool: set<char>, len: nat, most: seq<set<char>>, last: set<char>)
    requires DisjointWithin(pool, most + [last])
    ensures var avoiding := Using(pool - last, len, most);
            avoiding <= Using(pool, len, most) &&
            Using(pool, len, most + [last]) == Using(pool, len, most) - avoiding
    ensures DisjointWithin(pool, most) && DisjointWithin(pool - last, most)
  {
    var classes := most + [last];
    WordsMembers(pool, len);
    WordsMembers(pool - last, len);
    assert forall i :: 0 <= i < |most| ==> classes[i] == most[i];
    assert classes[|most|] == last;
    forall w | w in Words(pool, len)
      ensures w in Words(pool - last, len) <==> !Meets(w, last)
    {
    }
    forall w | w in Using(pool, len, most)
      ensures w in Using(pool, len, classes) <==> w !in Using(pool - last, len, most)
    {
    }
  }

  lemma {:induction false} ClassesFit(pool: set<char>, classes: seq<set<char>>)
    requires DisjointWithin(pool, classes)
    ensures Total(Sizes(classes)) <= |pool|
    decreases |classes|
  {
    if classes != [] {
      var most, last := classes[..|classes| - 1], classes[|classes| - 1];
      assert classes == most + [last];
      UsingSplits(pool, 0, most, last);
      ClassesFit(pool - last, most);
      assert Sizes(classes)[..|classes| - 1] == Sizes(most);
    }
  }

  /** Count gives the number of words that use every one of some disjoint classes. */
  lemma {:induction false} CountIsExact(pool: set<char>, len: nat, classes: seq<set<char>>)
    requires DisjointWithin(pool, classes)
    ensures Total(Sizes(classes)) <= |pool|
    ensures |Using(pool, len, classes)| == Count(|pool|, len, Sizes(classes))
    decreases |classes|
  {
    hide Using;
    ClassesFit(pool, classes);
    if classes == [] {
      WordsSize(pool, len);
      UsingNone(pool, len);
    } else {
      var most, last := classes[..|classes| - 1], classes[|classes| - 1];
      assert classes == most + [last];
      UsingSplits(pool, len, most, last);
      CountIsExact(pool, len, most);
      CountIsExact(pool - last, len, most);
      assert Sizes(classes)[..|classes| - 1] == Sizes(most);
    }
  }

  lemma UsingNone(pool: set<char>, len: nat)
    ensures Using(pool, len, []) == Words(pool, len)
  {
  }

  // ---------------------------------------------------------------- the sum over masks

  predicate Bit(mask: nat, i: nat) {
    PowPositive(2, i);
    mask / Pow(2, i) % 2 == 1
  }

  /** `count_ones`. */
  function Ones(mask: nat): nat {
    if mask == 0 then 0 else mask % 2 + Ones(mask / 2)
  }

  /** The sizes of the classes whose bit is set, added up. */
  function Excluded(sizes: seq<nat>, mask: nat): (e: nat)
    ensures e <= Total(sizes)
    decreases |sizes|
  {
    if sizes == [] then 0
    else
      var k := |sizes| - 1;
      Excluded(sizes[..k], mask) + (if Bit(mask, k) then sizes[k] else 0)
  }

  function Term(pool: nat, len: nat, sizes: seq<nat>, mask: nat): int
    requires Total(sizes) <= pool
  {
    var words: int := Pow(pool - Excluded(sizes, mask), len);
    if Ones(mask) % 2 == 0 then words else -words
  }

  /** The terms of the masks below m, added up. */
  function PartialSum(pool: nat, len: nat, sizes: seq<nat>, m: nat): int
    requires Total(sizes) <= pool
  {
    if m == 0 then 0 else PartialSum(pool, len, sizes, m - 1) + Term(pool, len, sizes, m - 1)
  }

  lemma TopBit(mask: nat, k: nat)
    requires mask < Pow(2, k)
    ensures !Bit(mask, k) && Bit(Pow(2, k) + mask, k)
  {
    DivModUnique(mask, 0, mask, Pow(2, k));
    DivModUnique(Pow(2, k) + mask, 1, mask, Pow(2, k));
  }

  lemma EvenShift(mask: nat, p: nat, half: nat)
    requires p > 0
    ensures ((2 * half) * p + mask) / p % 2 == mask / p % 2
  {
    QuotientShift(mask, p, 2 * half);
  }

  lemma QuotientShift(mask: nat, p: nat, e: nat)
    requires p > 0
    ensures (e * p + mask) / p == e + mask / p
  {
    var q, r := mask / p, mask % p;
    assert e * p + q * p == (e + q) * p;
    DivModUnique(e * p + mask, e + q, r, p);
  }

  lemma LowBits(mask: nat, k: nat, i: nat)
    requires i < k
    ensures Bit(Pow(2, k) + mask, i) == Bit(mask, i)
  {
    hide Pow;
    PowPositive(2, i);
    PowAdd(2, k - i, i);
    PowTwoEven(k - i);
    EvenShift(mask, Pow(2, i), Pow(2, k - i - 1));
  }

  lemma PowTwoEven(e: nat)
    requires e > 0
    ensures Pow(2, e) == 2 * Pow(2, e - 1)
  {
  }

  lemma {:induction false} OnesTopBit(mask: nat, k: nat)
    requires mask < Pow(2, k)
    ensures Ones(Pow(2, k) + mask) == 1 + Ones(mask)
  {
    if k > 0 {
      OnesTopBit(mask / 2, k - 1);
      assert (Pow(2, k) + mask) / 2 == Pow(2, k - 1) + mask / 2;
      assert (Pow(2, k) + mask) % 2 == mask % 2;
    }
  }

  lemma {:induction false} ExcludedLowBits(sizes: seq<nat>, mask: nat, k: nat)
    requires |sizes| <= k
    ensures Excluded(sizes, Pow(2, k) + mask) == Excluded(sizes, mask)
    decreases |sizes|
  {
    if sizes != [] {
      ExcludedLowBits(sizes[..|sizes| - 1], mask, k);
      LowBits(mask, k, |sizes| - 1);
    }
  }

  lemma TotalMore(most: seq<nat>, last: nat)
    ensures Total(most + [last]) == Total(most) + last
  {
    assert (most + [last])[..|most|] == most;
  }

  lemma ExcludedMore(most: seq<nat>, last: nat, mask: nat)
    ensures Excluded(most + [last], mask) == Excluded(most, mask) + (if Bit(mask, |most|) then last else 0)
  {
    hide Bit;
    assert (most + [last])[..|most|] == most;
  }

  lemma TermSplits(pool: nat, len: nat, most: seq<nat>, last: nat, mask: nat)
    requires Total(most + [last]) <= pool && mask < Pow(2, |most|)
    ensures Total(most) + last == Total(most + [last])
    ensures Term(pool, len, most + [last], mask) == Term(pool, len, most, mask)
    ensures Term(pool, len, most + [last], Pow(2, |most|) + mask) == -Term(pool - last, len, most, mask)
  {
    hide Bit, Ones, Pow, Excluded, Total;
    var k := |most|;
    TotalMore(most, last);
    TopBit(mask, k);
    OnesTopBit(mask, k);
    ExcludedLowBits(most, mask, k);
    ExcludedMore(most, last, mask);
    ExcludedMore(most, last, Pow(2, k) + mask);
  }

  lemma {:induction false} LowHalf(pool: nat, len: nat, most: seq<nat>, last: nat, m: nat)
    requires Total(most + [last]) <= pool && m <= Pow(2, |most|)
    ensures Total(most) + last == Total(most + [last])
    ensures PartialSum(pool, len, most + [last], m) == PartialSum(pool, len, most, m)
  {
    TotalMore(most, last);
    if m > 0 {
      LowHalf(pool, len, most, last, m - 1);
      TermSplits(pool, len, most, last, m - 1);
    }
  }

  lemma {:induction false} HighHalf(pool: nat, len: nat, most: seq<nat>, last: nat, m: nat)
    requires Total(most + [last]) <= pool && m <= Pow(2, |most|)
    ensures Total(most) + last == Total(most + [last])
    ensures PartialSum(pool, len, most + [last], Pow(2, |most|) + m)
         == PartialSum(pool, len, most, Pow(2, |most|)) - PartialSum(pool - last, len, most, m)
  {
    hide Pow, Term, Total;
    TotalMore(most, last);
    if m == 0 {
      LowHalf(pool, len, most, last, Pow(2, |most|));
    } else {
      HighHalf(pool, len, most, last, m - 1);
      TermSplits(pool, len, most, last, m - 1);
    }
  }

  /** The signed sum over all masks is the count. */
  lemma {:induction false} MaskSumIsCount(pool: nat, len: nat, sizes: seq<nat>)
    requires Total(sizes) <= pool
    ensures PartialSum(pool, len, sizes, Pow(2, |sizes|)) == Count(pool, len, sizes)
    decreases |sizes|
  {
    if sizes == [] {
      assert PartialSum(pool, len, [], 1) == Term(pool, len, [], 0);
    } else {
      var k := |sizes| - 1;
      var most, last := sizes[..k], sizes[k];
      assert sizes == most + [last];
      HighHalf(pool, len, most, last, Pow(2, k));
      MaskSumIsCount(pool, len, most);
      MaskSumIsCount(pool - last, len, most);
    }
  }

  function RealPow(x: real, e: nat): real {
    if e == 0 then 1.0 else x * RealPow(x, e - 1)
  }

  lemma {:induction false} RatioPow(a: nat, b: nat, e: nat)
    requires b > 0
    ensures RealPow(a as real / b as real, e) * Pow(b, e) as real == Pow(a, e) as real
  {
    hide Pow, RealPow;
    var x := a as real / b as real;
    PowSteps(x, a, e);
    PowSteps(x, b, e);
    if e > 0 {
      RatioPow(a, b, e - 1);
      RatioCancels(a, b);
      RealShuffle(x, RealPow(x, e - 1), b as real, Pow(b, e - 1) as real);
    }
  }

  lemma RatioCancels(a: nat, b: nat)
    requires b > 0
    ensures a as real / b as real * b as real == a as real
  {
  }

  lemma PowSteps(x: real, a: nat, e: nat)
    ensures if e == 0 then RealPow(x, e) == 1.0 && Pow(a, e) == 1
            else RealPow(x, e) == x * RealPow(x, e - 1) && Pow(a, e) as real == a as real * Pow(a, e - 1) as real
  {
  }

  lemma RealShuffle(x: real, y: real, p: real, q: real)
    ensures (x * y) * (p * q) == (x * p) * (y * q)
  {
    assert (x * y) * (p * q) == x * (y * (p * q));
    assert y * (p * q) == p * (y * q);
    assert x * (p * (y * q)) == (x * p) * (y * q);
  }

  /**
   The fraction the reported entropy is the logarithm of, before it is scaled by
   the number of all words.
   */
  method FractionValid(len: nat, classes: seq<nat>) returns (fraction: real)
    requires Total(classes) > 0 && |classes| < 32 && len < 0x8000_0000
    ensures fraction * Pow(Total(classes), len) as real == Count(Total(classes), len, classes) as real
  {
    hide Pow, RealPow, Excluded, Total, Count, Ones, PartialSum, Term;
    EmptySum(len, classes);
    var pool := Total(classes);
    ghost var all := Pow(pool, len) as real;
    fraction := 0.0;
    var mask := 0;
    while mask < Pow(2, |classes|)
      invariant mask <= Pow(2, |classes|)
      invariant fraction * all == PartialSum(pool, len, classes, mask) as real
    {
      var excluded := Excluded(classes, mask);
      var term := RealPow((pool - excluded) as real / pool as real, len);
      AddTerm(fraction, len, classes, mask);
      if Ones(mask) % 2 == 0 {
        fraction := fraction + term;
      } else {
        fraction := fraction - term;
      }
      mask := mask + 1;
    }
    MaskSumIsCount(pool, len, classes);
  }

  /** One turn of the loop, before the mask moves on. */
  lemma AddTerm(fraction: real, len: nat, classes: seq<nat>, mask: nat)
    requires Total(classes) > 0
    requires var pool := Total(classes);
             fraction * Pow(pool, len) as real == PartialSum(pool, len, classes, mask) as real
    ensures var pool := Total(classes);
            var term := RealPow((pool - Excluded(classes, mask)) as real / pool as real, len);
            (if Ones(mask) % 2 == 0 then fraction + term else fraction - term) * Pow(pool, len) as real
            == PartialSum(pool, len, classes, mask + 1) as real
  {
    hide Pow, RealPow, Excluded, Total, Ones, PartialSum, Term;
    var pool, excluded := Total(classes), Excluded(classes, mask);
    var term := RealPow((pool - excluded) as real / pool as real, len);
    RatioPow(pool - excluded, pool, len);
    SumStep(pool, len, classes, mask);
    AddScaled(fraction, term, Pow(pool, len) as real, PartialSum(pool, len, classes, mask) as real,
              Pow(pool - excluded, len) as real);
  }

  lemma SumStep(pool: nat, len: nat, sizes: seq<nat>, mask: nat)
    requires Total(sizes) <= pool
    ensures var words: int := Pow(pool - Excluded(sizes, mask), len);
            PartialSum(pool, len, sizes, mask + 1)
            == PartialSum(pool, len, sizes, mask) + (if Ones(mask) % 2 == 0 then words else -words)
  {
    hide Pow, Excluded, Total, Ones;
  }

  lemma AddScaled(f: real, t: real, a: real, p: real, w: real)
    requires f * a == p && t * a == w
    ensures (f + t) * a == p + w && (f - t) * a == p - w
  {
  }

  lemma EmptySum(len: nat, classes: seq<nat>)
    ensures PartialSum(Total(classes), len, classes, 0) == 0
  {
  }
}
