/** The SRP-6a login of zvault-crypto and the server its tests mirror. */
module Srp {
  // The hash is any function on byte strings, and the group any modulus above one that fits 384 bytes: agreement does
  // not need a prime.

  import opened Common
  import opened ModularPower

  const SRP_LEN: nat := 384

  datatype Error = SrpError

  // ---------------------------------------------------------------- integers

  /** `BigUint::from_bytes_be`. */
  function Int(bytes: seq<byte>): nat {
    if bytes == [] then 0 else Int(bytes[..|bytes| - 1]) * 256 + bytes[|bytes| - 1]
  }

  /** `BigUint::to_bytes_be`: no leading zero, except that zero is one zero byte. */
  function Bytes(n: nat): seq<byte> {
    if n < 256 then [n] else Bytes(n / 256) + [n % 256]
  }

  function Zeros(k: nat): seq<byte> {
    seq(k, _ => 0)
  }

  function Pad(n: nat): seq<byte> {
    var b := Bytes(n);
    Zeros(if |b| < SRP_LEN then SRP_LEN - |b| else 0) + b
  }

  lemma {:induction false} IntOfBytes(n: nat)
    ensures Int(Bytes(n)) == n
  {
    if n >= 256 {
      IntOfBytes(n / 256);
      assert Bytes(n)[..|Bytes(n)| - 1] == Bytes(n / 256);
    } else {
      assert Int([n][..0]) == 0;
    }
  }

  /** The most significant byte comes first. */
  lemma {:induction false} IntIsPositional(a: seq<byte>, b: seq<byte>, d: byte)
    ensures Int([d]) == d
    ensures Int(a + b) == Int(a) * Pow(256, |b|) + Int(b)
    decreases |b|
  {
    assert [d][..0] == [] && Int([]) == 0;
    if b == [] {
      assert a + b == a;
    } else {
      var front, last := b[..|b| - 1], b[|b| - 1];
      IntIsPositional(a, front, d);
      assert (a + b)[..|a + b| - 1] == a + front;
      ShiftSum(Int(a), Pow(256, |front|), Int(front), last);
    }
  }

  lemma ShiftSum(x: nat, p: nat, y: nat, d: nat)
    ensures (x * p + y) * 256 + d == x * (256 * p) + (y * 256 + d)
  {
  }

  lemma {:induction false} IntIgnoresLeadingZeros(k: nat, b: seq<byte>)
    ensures Int(Zeros(k) + b) == Int(b)
    decreases |b|, k
  {
    var s := Zeros(k) + b;
    if b != [] {
      assert s[..|s| - 1] == Zeros(k) + b[..|b| - 1];
      IntIgnoresLeadingZeros(k, b[..|b| - 1]);
    } else if k > 0 {
      assert s[..|s| - 1] == Zeros(k - 1) + b;
      IntIgnoresLeadingZeros(k - 1, b);
    }
  }

  lemma {:induction false} BytesLengthMonotone(m: nat, n: nat)
    requires m <= n
    ensures |Bytes(m)| <= |Bytes(n)|
  {
    if m >= 256 {
      BytesLengthMonotone(m / 256, n / 256);
    }
  }

  /** Padding loses nothing, and is exactly 384 bytes for numbers that fit. */
  lemma PadRoundTrip(n: nat)
    ensures Int(Pad(n)) == n
    ensures |Pad(n)| == SRP_LEN <==> |Bytes(n)| <= SRP_LEN
  {
    var b := Bytes(n);
    IntIgnoresLeadingZeros(if |b| < SRP_LEN then SRP_LEN - |b| else 0, b);
    IntOfBytes(n);
  }

  /** Byte strings of one length are told apart by the number they spell. */
  lemma {:induction false} IntInjective(a: seq<byte>, b: seq<byte>)
    requires |a| == |b| && Int(a) == Int(b)
    ensures a == b
  {
    if a != [] {
      IntInjective(a[..|a| - 1], b[..|b| - 1]);
      assert a == a[..|a| - 1] + [a[|a| - 1]];
      assert b == b[..|b| - 1] + [b[|b| - 1]];
    }
  }

  lemma {:induction false} IntFitsLength(b: seq<byte>)
    requires b != []
    ensures |Bytes(Int(b))| <= |b|
  {
    if |b| == 1 {
      assert Int(b[..0]) == 0;
    } else {
      IntFitsLength(b[..|b| - 1]);
      assert Int(b) / 256 == Int(b[..|b| - 1]);
    }
  }

  /** Every 384-byte wire value is the padding of the number it spells. */
  lemma PadOfInt(b: seq<byte>)
    requires |b| == SRP_LEN
    ensures Pad(Int(b)) == b
  {
    IntFitsLength(b);
    PadRoundTrip(Int(b));
    IntInjective(Pad(Int(b)), b);
  }

  // ---------------------------------------------------------------- protocol

  datatype Group = Group(n: nat, g: byte, hash: seq<byte> -> seq<byte>) {
    predicate Valid() {
      n > 1 && |Bytes(n)| <= SRP_LEN
    }

    function K(): nat {
      Int(hash(Pad(n) + Pad(g)))
    }
  }

  function Verifier(grp: Group, srpX: seq<byte>): seq<byte>
    requires grp.Valid()
  {
    Pad(ModPow(grp.g, Int(srpX), grp.n))
  }

  function XorBits(x: nat, y: nat, k: nat): (z: nat)
    ensures z < Pow(2, k)
  {
    if k == 0 then 0 else (x + y) % 2 + 2 * XorBits(x / 2, y / 2, k - 1)
  }

  function Xor(x: byte, y: byte): byte {
    assert Pow(2, 8) == 256;
    XorBits(x, y, 8)
  }

  /** XOR of the overlapping parts; what is past the shorter second string stays. */
  function XorOver(a: seq<byte>, b: seq<byte>): seq<byte> {
    seq(|a|, i requires 0 <= i < |a| => if i < |b| then Xor(a[i], b[i]) else a[i])
  }

  function Proof(grp: Group, identity: seq<byte>, salt: seq<byte>, aPub: seq<byte>, bPub: seq<byte>,
                 key: seq<byte>): seq<byte>
  {
    var hng := XorOver(grp.hash(Pad(grp.n)), grp.hash([grp.g]));
    grp.hash(hng + grp.hash(identity) + salt + aPub + bPub + key)
  }

  /** Bit i of the XOR is set exactly when the operands' bits differ. */
  lemma XorIsBitwise(x: byte, y: byte, i: nat)
    requires i < 8
    ensures Pow(2, i) > 0
    ensures Xor(x, y) / Pow(2, i) % 2 == 1 <==> x / Pow(2, i) % 2 != y / Pow(2, i) % 2
  {
    hide Pow, XorBits;
    XorBit(x, y, 8, i);
    ParityOfTwo(x / Pow(2, i), y / Pow(2, i));
  }

  lemma ParityOfTwo(a: nat, b: nat)
    ensures (a + b) % 2 == 1 <==> a % 2 != b % 2
  {
  }

  lemma {:induction false} XorBit(x: nat, y: nat, k: nat, i: nat)
    requires i < k
    ensures Pow(2, i) > 0
    ensures XorBits(x, y, k) / Pow(2, i) % 2 == (x / Pow(2, i) + y / Pow(2, i)) % 2
  {
    hide Pow, XorBits;
    XorLowest(x, y, k);
    PowPositive(2, i);
    if i > 0 {
      PowMore(i);
      PowPositive(2, i - 1);
      XorBit(x / 2, y / 2, k - 1, i - 1);
      BitOfHalves(XorBits(x, y, k), x, y, XorBits(x / 2, y / 2, k - 1), Pow(2, i - 1));
    } else {
      PowNone();
      LowBits(XorBits(x, y, k), x, y, XorBits(x / 2, y / 2, k - 1));
    }
  }

  lemma XorLowest(x: nat, y: nat, k: nat)
    requires k > 0
    ensures XorBits(x, y, k) == (x + y) % 2 + 2 * XorBits(x / 2, y / 2, k - 1)
  {
  }

  lemma LowBits(z: nat, x: nat, y: nat, half: nat)
    requires z == (x + y) % 2 + 2 * half
    ensures z / 1 % 2 == (x / 1 + y / 1) % 2
  {
  }

  lemma BitOfHalves(z: nat, x: nat, y: nat, half: nat, p: nat)
    requires p > 0 && z == (x + y) % 2 + 2 * half
    requires half / p % 2 == (x / 2 / p + y / 2 / p) % 2
    ensures z / (2 * p) % 2 == (x / (2 * p) + y / (2 * p)) % 2
  {
    DivTwice(z, p);
    DivTwice(x, p);
    DivTwice(y, p);
    assert z / 2 == half;
  }

  method XorInPlace(a: array<byte>, b: seq<byte>)
    modifies a
    ensures a[..] == XorOver(old(a[..]), b)
    ensures forall i :: 0 <= i < a.Length ==> a[i] == if i < |b| then Xor(old(a[i]), b[i]) else old(a[i])
  {
    var i := 0;
    while i < a.Length && i < |b|
      invariant 0 <= i <= a.Length && i <= |b|
      invariant forall j :: 0 <= j < i ==> a[j] == Xor(old(a[j]), b[j])
      invariant forall j :: i <= j < a.Length ==> a[j] == old(a[j])
    {
      a[i] := Xor(a[i], b[i]);
      i := i + 1;
    }
  }

  method ComputeProof(grp: Group, identity: seq<byte>, salt: seq<byte>, aPub: seq<byte>, bPub: seq<byte>,
                      key: seq<byte>) returns (m1: seq<byte>)
    ensures m1 == Proof(grp, identity, salt, aPub, bPub, key)
    ensures var hn, hg := grp.hash(Pad(grp.n)), grp.hash([grp.g]);
            exists hng: seq<byte> ::
              && |hng| == |hn|
              && (forall i :: 0 <= i < |hng| ==> hng[i] == if i < |hg| then Xor(hn[i], hg[i]) else hn[i])
              && m1 == grp.hash(hng + grp.hash(identity) + salt + aPub + bPub + key)
  {
    hide Xor, Pad;
    var h := grp.hash(Pad(grp.n));
    var hng := new byte[|h|](i requires 0 <= i < |h| => h[i]);
    assert hng[..] == h;
    XorInPlace(hng, grp.hash([grp.g]));
    m1 := grp.hash(hng[..] + grp.hash(identity) + salt + aPub + bPub + key);
  }

  datatype ClientSession = ClientSession(publicA: seq<byte>, m1: seq<byte>, m2: seq<byte>, key: seq<byte>)

  /** (B - k*v)^(a + u*x), as the client computes it. */
  function ClientPower(g: nat, k: nat, a: nat, u: nat, x: nat, bPub: nat, n: nat): nat
    requires n > 0
  {
    var kv := k * ModPow(g, x, n) % n;
    // BigUint subtraction panics below zero, so the difference is typed as a natural.
    var difference: nat := bPub % n + n - kv;
    ModPow(difference % n, a + u * x, n)
  }

  /** (A * v^u)^b, as the server computes it. */
  function ServerPower(aPub: nat, v: nat, u: nat, b: nat, n: nat): nat
    requires n > 0
  {
    ModPow(aPub * ModPow(v, u, n), b, n)
  }

  function WithSecret(grp: Group, a: nat, identity: seq<byte>, salt: seq<byte>, srpX: seq<byte>,
                      publicB: seq<byte>): Result<ClientSession, Error>
    requires grp.Valid()
  {
    if |publicB| != SRP_LEN then Err(SrpError) else
    var bPub := Int(publicB);
    if bPub % grp.n == 0 then Err(SrpError) else
    var aPub := Pad(ModPow(grp.g, a, grp.n));
    var u := Int(grp.hash(aPub + publicB));
    if u == 0 then Err(SrpError) else
    var x := Int(srpX);
    var s := ClientPower(grp.g, grp.K(), a, u, x, bPub, grp.n);
    var key := grp.hash(Pad(s));
    var m1 := Proof(grp, identity, salt, aPub, publicB, key);
    Ok(ClientSession(aPub, m1, grp.hash(aPub + m1 + key), key))
  }

  function VerifyServer(c: ClientSession, m2: seq<byte>): Result<(), Error> {
    if c.m2 == m2 then Ok(()) else Err(SrpError)
  }

  /** k*v + g^b */
  function PublicB(k: nat, v: nat, g: nat, b: nat, n: nat): nat
    requires n > 0
  {
    (k * v + ModPow(g, b, n)) % n
  }

  datatype Server = Server(b: nat, publicB: seq<byte>, v: nat)

  function NewServer(grp: Group, b: nat, verifier: seq<byte>): Server
    requires grp.Valid()
  {
    var v := Int(verifier);
    Server(b, Pad(PublicB(grp.K(), v, grp.g, b, grp.n)), v)
  }

  function ServerKey(grp: Group, server: Server, aPub: seq<byte>): seq<byte>
    requires grp.Valid()
  {
    var u := Int(grp.hash(aPub + server.publicB));
    var s := ServerPower(Int(aPub), server.v, u, server.b, grp.n);
    grp.hash(Pad(s))
  }

  // ---------------------------------------------------------------- agreement

  lemma ResidueFits(grp: Group, m: nat)
    requires grp.Valid() && m < grp.n
    ensures |Pad(m)| == SRP_LEN && Int(Pad(m)) == m
  {
    BytesLengthMonotone(m, grp.n);
    PadRoundTrip(m);
  }

  lemma ClientSecret(g: nat, kv: nat, b: nat, e: nat, n: nat)
    requires n > 0
    ensures var bPub := (kv + ModPow(g, b, n)) % n;
            ModPow((bPub + n - kv % n) % n, e, n) == Pow(g, b * e) % n
  {
    var gb := ModPow(g, b, n);
    ModSubtractBack(kv, gb, n);
    DivModUnique(gb, 0, gb, n);
    ModPowReduce(Pow(g, b), e, n);
    PowPow(g, b, e);
  }

  lemma ServerSecret(g: nat, a: nat, b: nat, u: nat, x: nat, n: nat)
    requires n > 0
    ensures ModPow(ModPow(g, a, n) * ModPow(ModPow(g, x, n), u, n), b, n) == Pow(g, (a + x * u) * b) % n
  {
    var ga, gxu := Pow(g, a), Pow(g, x * u);
    ModPowReduce(Pow(g, x), u, n);
    PowPow(g, x, u);
    var product := (ga % n) * (gxu % n);
    assert product % n == ga * gxu % n by {
      ModMul(ga % n, gxu, n);
      ModMul(ga, gxu, n);
    }
    PowAdd(g, a, x * u);
    ModPowReduce(product, b, n);
    ModPowReduce(ga * gxu, b, n);
    PowPow(g, a + x * u, b);
  }

  /** (B - k*v)^(a + u*x) == (A * v^u)^b, all mod n. */
  lemma SharedSecret(g: nat, k: nat, a: nat, b: nat, u: nat, x: nat, n: nat)
    requires n > 0
    ensures var v := ModPow(g, x, n);
            ClientPower(g, k, a, u, x, PublicB(k, v, g, b, n), n) == ServerPower(ModPow(g, a, n), v, u, b, n)
  {
    hide ModPow, Pow;
    var kv := k * ModPow(g, x, n);
    ClientSecret(g, kv, b, a + u * x, n);
    ServerSecret(g, a, b, u, x, n);
    SameExponent(a, b, u, x);
    ReducedTwice(kv + ModPow(g, b, n), n);
  }

  lemma ReducedTwice(m: nat, n: nat)
    requires n > 0
    ensures m % n % n == m % n
  {
    DivModUnique(m % n, 0, m % n, n);
  }

  lemma SameExponent(a: nat, b: nat, u: nat, x: nat)
    ensures (a + x * u) * b == b * (a + u * x)
  {
  }

  /** The client's base, kept above zero on the way, is B - k*g^x. */
  lemma SubtractIsModular(bPub: nat, k: nat, gx: nat, n: nat)
    requires n > 0
    ensures (bPub % n + n - k * (gx % n) % n) % n == (bPub - k * gx) % n
  {
    ModMul(k, gx, n);
    ModDifference(bPub, k * gx, n);
  }

  /** B - k*g^x mod n, as the standard writes it. */
  ghost function Base(bPub: nat, k: nat, gx: nat, n: nat): nat
    requires n > 0
  {
    (bPub - k * gx) % n
  }

  /** (B - k*g^x)^(a + u*x) mod n */
  lemma ClientPowerIs(g: nat, k: nat, a: nat, u: nat, x: nat, bPub: nat, n: nat)
    requires n > 0
    ensures ClientPower(g, k, a, u, x, bPub, n) == Pow(Base(bPub, k, Pow(g, x), n), a + u * x) % n
  {
    hide Pow;
    SubtractIsModular(bPub, k, Pow(g, x), n);
  }

  /** When the client refuses to go on. */
  lemma ClientRefuses(grp: Group, a: nat, identity: seq<byte>, salt: seq<byte>, srpX: seq<byte>, publicB: seq<byte>)
    requires grp.Valid()
    ensures WithSecret(grp, a, identity, salt, srpX, publicB).Err? <==>
            || |publicB| != 384
            || Int(publicB) % grp.n == 0
            || Int(grp.hash(Pad(Pow(grp.g, a) % grp.n) + publicB)) == 0
  {
    hide Pow, Pad, Int, Bytes, Proof, ClientPower;
  }

  /** What the client's session holds otherwise. */
  lemma ClientTranscript(grp: Group, a: nat, identity: seq<byte>, salt: seq<byte>, srpX: seq<byte>,
                         publicB: seq<byte>)
    requires grp.Valid() && WithSecret(grp, a, identity, salt, srpX, publicB).Ok?
    ensures var c := WithSecret(grp, a, identity, salt, srpX, publicB).value;
            var n, g, x := grp.n, grp.g as nat, Int(srpX);
            var k := Int(grp.hash(Pad(n) + Pad(g)));
            var u := Int(grp.hash(c.publicA + publicB));
            && c.publicA == Pad(Pow(g, a) % n)
            && c.key == grp.hash(Pad(Pow(Base(Int(publicB), k, Pow(g, x), n), a + u * x) % n))
            && c.m1 == Proof(grp, identity, salt, c.publicA, publicB, c.key)
            && c.m2 == grp.hash(c.publicA + c.m1 + c.key)
            && forall m2 :: VerifyServer(c, m2).Ok? <==> m2 == c.m2
  {
    hide Pow, Pad, Int, Bytes, Proof, ClientPower, Base;
    var u := Int(grp.hash(Pad(Pow(grp.g, a) % grp.n) + publicB));
    ClientPowerIs(grp.g, grp.K(), a, u, Int(srpX), Int(publicB), grp.n);
  }

  /** The server's side spelled out. */
  lemma ServerTranscript(grp: Group, b: nat, srpX: seq<byte>, aPub: seq<byte>)
    requires grp.Valid()
    ensures var n, g := grp.n, grp.g as nat;
            var v := Pow(g, Int(srpX)) % n;
            var k := Int(grp.hash(Pad(n) + Pad(g)));
            var server := NewServer(grp, b, Verifier(grp, srpX));
            var u := Int(grp.hash(aPub + server.publicB));
            && Verifier(grp, srpX) == Pad(v)
            && server.publicB == Pad((k * v + Pow(g, b)) % n)
            && ServerKey(grp, server, aPub) == grp.hash(Pad(Pow(Int(aPub) * Pow(v, u), b) % n))
  {
    hide Pow, Pad, Int, Bytes;
    var n, v := grp.n, Pow(grp.g, Int(srpX)) % grp.n;
    var k, gb := grp.K(), Pow(grp.g, b);
    PadRoundTrip(v);
    ModSumRight(k * v, gb, n);
    var server := NewServer(grp, b, Verifier(grp, srpX));
    var u, ga := Int(grp.hash(aPub + server.publicB)), Int(aPub);
    ModMul(ga, Pow(v, u), n);
    ModPowReduce(ga * (Pow(v, u) % n), b, n);
    ModPowReduce(ga * Pow(v, u), b, n);
  }

  /**
   A login against a server that stored this key's verifier is refused exactly
   when B or u is zero; otherwise both sides hold the same key, the server accepts
   the client's proof, and the client accepts the server's answer to it.
   */
  lemma Agreement(grp: Group, a: nat, b: nat, identity: seq<byte>, salt: seq<byte>, srpX: seq<byte>)
    requires grp.Valid()
    ensures var server := NewServer(grp, b, Verifier(grp, srpX));
            var session := WithSecret(grp, a, identity, salt, srpX, server.publicB);
            var aPub := Pad(ModPow(grp.g, a, grp.n));
            var key := ServerKey(grp, server, aPub);
            var m1 := Proof(grp, identity, salt, aPub, server.publicB, key);
            && |server.publicB| == SRP_LEN
            && (session.Err? <==> Int(server.publicB) == 0 || Int(grp.hash(aPub + server.publicB)) == 0)
            && (session.Ok? ==>
                  && session.value.publicA == aPub
                  && session.value.key == key
                  && session.value.m1 == m1
                  && VerifyServer(session.value, grp.hash(aPub + m1 + key)).Ok?)
  {
    hide ModPow, Pow, Pad, Int, Bytes, Proof, ClientPower, ServerPower, PublicB;
    var n, x := grp.n, Int(srpX);
    var v := ModPow(grp.g, x, n);
    var bPub := PublicB(grp.K(), v, grp.g, b, n);
    PowerFits(grp, grp.g, x);
    PowerFits(grp, grp.g, a);
    PublicFits(grp, grp.K(), v, grp.g, b);
    var aPub := Pad(ModPow(grp.g, a, n));
    SharedSecret(grp.g, grp.K(), a, b, Int(grp.hash(aPub + Pad(bPub))), x, n);
  }

  lemma PowerFits(grp: Group, base: nat, e: nat)
    requires grp.Valid()
    ensures var m := ModPow(base, e, grp.n); |Pad(m)| == SRP_LEN && Int(Pad(m)) == m
  {
    hide Pad, Int, Bytes, Pow;
    ResidueFits(grp, ModPow(base, e, grp.n));
  }

  lemma PublicFits(grp: Group, k: nat, v: nat, g: nat, b: nat)
    requires grp.Valid()
    ensures var m := PublicB(k, v, g, b, grp.n); |Pad(m)| == SRP_LEN && Int(Pad(m)) == m && m % grp.n == m
  {
    hide Pad, Int, Bytes, Pow, ModPow;
    var m := PublicB(k, v, g, b, grp.n);
    ResidueFits(grp, m);
    DivModUnique(m, 0, m, grp.n);
  }
}
