/**
 Powers of naturals and how they behave under a modulus.

 The sign-in arithmetic rests on a few laws: a power of a power is the power to
 the product, a product of powers of one base is the power to the sum, and both
 can be reduced before or after. Division is only ever used through the one fact
 that a quotient and a remainder in range are the quotient and the remainder.
 Each law is proved from the definitions, with every use of multiplication of
 two variables in a lemma of its own, since the verifier has no complete theory
 of those. Numbers as strings of bits use powers of two from here.
 */
module ModularPower {

  function Pow(b: nat, e: nat): nat {
    if e == 0 then 1 else b * Pow(b, e - 1)
  }

  lemma {:induction false} PowPositive(b: nat, e: nat)
    requires b > 0
    ensures Pow(b, e) > 0
  {
    if e > 0 {
      PowPositive(b, e - 1);
    }
  }

  /** `BigUint::modpow`. */
  function ModPow(b: nat, e: nat, n: nat): nat
    requires n > 0
  {
    Pow(b, e) % n
  }

  /** The only multiple of n strictly between -n and n is zero. */
  lemma SmallMultiple(k: int, n: int)
    requires n > 0
    ensures -n < k * n < n ==> k == 0
  {
    if k >= 1 {
      assert k * n >= n;
    } else if k <= -1 {
      assert k * n <= -n;
    }
  }

  /** A quotient and a remainder in range are the quotient and the remainder. */
  lemma DivModUnique(a: int, q: int, r: int, n: int)
    requires n > 0 && 0 <= r < n && a == q * n + r
    ensures a % n == r && a / n == q
  {
    var q', r' := a / n, a % n;
    assert (q' - q) * n == r - r';
    SmallMultiple(q' - q, n);
  }

  lemma ModAddMultiple(a: int, k: int, n: int)
    requires n > 0
    ensures (a + k * n) % n == a % n
  {
    DivModUnique(a + k * n, a / n + k, a % n, n);
  }

  /** Adding and then removing a reduced summand leaves the other summand reduced. */
  lemma ModSubtractBack(kv: nat, s: nat, n: nat)
    requires n > 0
    ensures ((kv + s) % n + n - kv % n) % n == s % n
  {
    var total := kv + s;
    ModAddMultiple(s, 1 + kv / n - total / n, n);
    assert total % n + n - kv % n == s + (1 + kv / n - total / n) * n by {
      assert total % n == total - (total / n) * n;
      assert kv % n == kv - (kv / n) * n;
    }
  }

  lemma ModMul(a: nat, b: nat, n: nat)
    requires n > 0
    ensures (a % n) * b % n == a * b % n
    ensures a * (b % n) % n == a * b % n
  {
    ModMulLeft(a, b, n);
    ModMulLeft(b, a, n);
    Commutes(a, b);
    Commutes(a, b % n);
  }

  lemma ModMulLeft(a: nat, b: nat, n: nat)
    requires n > 0
    ensures (a % n) * b % n == a * b % n
  {
    Expand(a, a / n, a % n, b, n);
    ModAddMultiple((a % n) * b, (a / n) * b, n);
  }

  lemma Expand(a: nat, q: nat, r: nat, b: nat, n: nat)
    requires a == q * n + r
    ensures a * b == r * b + (q * b) * n
  {
    assert (q * n) * b == (q * b) * n;
  }

  lemma Commutes(a: nat, b: nat)
    ensures a * b == b * a
  {
  }

  lemma {:induction false} ModPowReduce(b: nat, e: nat, n: nat)
    requires n > 0
    ensures Pow(b % n, e) % n == Pow(b, e) % n
  {
    if e > 0 {
      ModPowReduce(b, e - 1, n);
      ModMul(b % n, Pow(b % n, e - 1), n);
      ModMul(b % n, Pow(b, e - 1), n);
      ModMul(b, Pow(b, e - 1), n);
    }
  }

  lemma {:induction false} PowAdd(b: nat, d: nat, e: nat)
    ensures Pow(b, d + e) == Pow(b, d) * Pow(b, e)
  {
    if d > 0 {
      PowAdd(b, d - 1, e);
      MulAssociative(b, Pow(b, d - 1), Pow(b, e));
    }
  }

  lemma MulAssociative(a: nat, b: nat, c: nat)
    ensures a * (b * c) == (a * b) * c
  {
  }

  lemma {:induction false} PowProduct(a: nat, b: nat, e: nat)
    ensures Pow(a * b, e) == Pow(a, e) * Pow(b, e)
  {
    if e > 0 {
      PowProduct(a, b, e - 1);
    }
  }

  lemma {:induction false} PowPow(b: nat, d: nat, e: nat)
    ensures Pow(Pow(b, d), e) == Pow(b, d * e)
  {
    if e > 0 {
      PowPow(b, d, e - 1);
      PowAdd(b, d, d * (e - 1));
      assert d + d * (e - 1) == d * e;
    }
  }

  lemma PowNone()
    ensures Pow(2, 0) == 1
  {
  }

  lemma PowMore(i: nat)
    requires i > 0
    ensures Pow(2, i) == 2 * Pow(2, i - 1)
  {
  }

  lemma DivTwice(x: nat, p: nat)
    requires p > 0
    ensures x / (2 * p) == x / 2 / p
  {
    var q, r := x / 2 / p, x / 2 % p;
    assert x == q * (2 * p) + (2 * r + x % 2) by {
      assert x / 2 == q * p + r;
    }
    DivModUnique(x, q, 2 * r + x % 2, 2 * p);
  }

  lemma ModSumRight(a: nat, b: nat, n: nat)
    requires n > 0
    ensures (a + b % n) % n == (a + b) % n
  {
    var q, r := b / n, b % n;
    assert b == q * n + r;
    ModAddMultiple(a + r, q, n);
  }

  /** Subtracting remainders, kept above zero, is subtracting. */
  lemma ModDifference(a: nat, b: nat, n: nat)
    requires n > 0
    ensures (a % n + n - b % n) % n == (a - b) % n
  {
    Quotient(a, n);
    Quotient(b, n);
    Difference(a, a / n, a % n, b, b / n, b % n, n);
  }

  lemma Difference(a: int, q: int, r: int, b: int, p: int, s: int, n: int)
    requires n > 0 && a == q * n + r && b == p * n + s
    ensures (r + n - s) % n == (a - b) % n
  {
    SameDifference(a, q, r, b, p, s, n);
    ModAddMultiple(a - b, p - q + 1, n);
  }

  lemma Quotient(a: nat, n: nat)
    requires n > 0
    ensures a == a / n * n + a % n
  {
  }

  lemma SameDifference(a: int, q: int, r: int, b: int, p: int, s: int, n: int)
    requires a == q * n + r && b == p * n + s
    ensures r + n - s == a - b + (p - q + 1) * n
  {
  }
}
