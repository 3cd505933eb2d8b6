/** ECDSA over an abstract curve group: what a signature is (SEC 1 version 2,
    sections 4.1.3 and 4.1.4) and why an honest one is accepted. */
module EcdsaSpec {
  import opened Curve
  import opened CurveGroup
  import opened Limbs
  import opened Numbers

  // The leftmost 32 bytes of the hash, or all of it if shorter.
  ghost function HashInt(h: seq<Byte>): nat {
    BigEndian(if |h| < 32 then h else h[..32])
  }

  // The abscissa, with 0 for the point at infinity.
  ghost function Abscissa(P: Point): int {
    if P.Zero? then 0 else P.x
  }

  ghost predicate InRange(c: Params, k: int) {
    1 <= k < c.n
  }

  ghost function SignR(c: Params, G: Point, k: nat): int
    requires IsGroup(c)
  {
    Abscissa(Mul(c, k, G)) % c.n
  }

  ghost function SignS(c: Params, k: int, e: int, r: int, d: int): int
    requires IsPrime(c.n)
  {
    (Inv(k, c.n) * (e + r * d)) % c.n
  }

  ghost function U1(c: Params, e: int, s: int): (u: int)
    requires IsPrime(c.n)
    ensures 0 <= u < c.n
  {
    (e * Inv(s, c.n)) % c.n
  }

  ghost function U2(c: Params, r: int, s: int): (u: int)
    requires IsPrime(c.n)
    ensures 0 <= u < c.n
  {
    (r * Inv(s, c.n)) % c.n
  }

  // The verification equation: x(u1 G + u2 Q) mod n = r.
  ghost predicate Accepts(c: Params, G: Point, Q: Point, e: int, r: int, s: int)
    requires IsGroup(c)
  {
    Abscissa(Add(c, Mul(c, U1(c, e, s), G), Mul(c, U2(c, r, s), Q))) % c.n == r
  }

  // k s = t, so dividing t by s gives k back.
  lemma DivideBack(n: int, k: int, t: int, s: int)
    requires IsPrime(n) && k % n != 0 && s % n != 0 && s == (Inv(k, n) * t) % n
    ensures (Inv(s, n) * t) % n == k % n
  {
    var w, i := Inv(s, n), Inv(k, n);
    ModSmall(1, n);
    ModMul(k, i * t, n);
    MulAssoc(k, i, t);
    CongMul(k * i, 1, t, t, n);
    CongMul(w, w, t, k * s, n);
    assert w * (k * s) == k * (s * w);
    CongMul(k, k, s * w, 1, n);
  }

  lemma SumOfQuotients(n: int, w: int, e: int, r: int, d: int)
    requires n > 0
    ensures ((e * w) % n + ((r * w) % n) * d) % n == (w * (e + r * d)) % n
  {
    ModMod(e * w, n);
    ModMul(r * w, d, n);
    CongAdd((e * w) % n, e * w, ((r * w) % n) * d, (r * w) * d, n);
    assert (r * w) * d == w * (r * d);
    assert e * w + w * (r * d) == w * (e + r * d);
  }

  // u1 + u2 d = k modulo n.
  lemma ScalarsAddUp(n: int, k: int, e: int, r: int, d: int, s: int)
    requires IsPrime(n) && k % n != 0 && s % n != 0
    requires s == (Inv(k, n) * (e + r * d)) % n
    ensures ((e * Inv(s, n)) % n + ((r * Inv(s, n)) % n) * d) % n == k % n
  {
    DivideBack(n, k, e + r * d, s);
    SumOfQuotients(n, Inv(s, n), e, r, d);
  }

  datatype Outcome = Failed(code: int) | Signed(r: int, s: int)

  // Signing with nonce k (0 if none was found), private key d and hash e.
  ghost function Sign(c: Params, G: Point, k: nat, d: int, e: int): Outcome
    requires IsGroup(c)
  {
    if k == 0 then Failed(-1)
    else
      var r := SignR(c, G, k);
      if r == 0 then Failed(-1)
      else if !InRange(c, d) then Failed(-3)
      else
        var s := SignS(c, k, e, r, d);
        if s == 0 then Failed(-1) else Signed(r, s)
  }

  // A public key: two reduced coordinates of a finite curve point.
  ghost predicate ValidKey(c: Params, x: int, y: int)
    requires c.p > 3
  {
    0 <= x < c.p && 0 <= y < c.p && OnCurve(c, Affine(x, y))
  }

  // The verdict on (r, s) under the key (x, y) for the hash e.
  ghost function Verify(c: Params, G: Point, x: int, y: int, r: int, s: int, e: int): int
    requires IsGroup(c)
  {
    if !InRange(c, r) || !InRange(c, s) then -4
    else if !ValidKey(c, x, y) then -2
    else if Accepts(c, G, Affine(x, y), e, r, s) then 0
    else -4
  }

  // An honest signature passes the verification equation.
  lemma Completeness(c: Params, G: Point, k: nat, d: nat, e: int)
    requires IsGroup(c) && G.Affine? && OnCurve(c, G) && InRange(c, k) && InRange(c, d)
    requires SignR(c, G, k) != 0 && SignS(c, k, e, SignR(c, G, k), d) != 0
    ensures var r := SignR(c, G, k); var s := SignS(c, k, e, r, d);
            InRange(c, r) && InRange(c, s) && Accepts(c, G, Mul(c, d, G), e, r, s)
  {
    hide Add, Mul;
    var r := SignR(c, G, k);
    var s := SignS(c, k, e, r, d);
    DivMod(Abscissa(Mul(c, k, G)), c.n);
    DivMod(Inv(k, c.n) * (e + r * d), c.n);
    ModSmall(k, c.n);
    ModSmall(s, c.n);
    ScalarsAddUp(c.n, k, e, r, d, s);
    var u1, u2 := U1(c, e, s), U2(c, r, s);
    MulMul(c, u2, d, G);
    MulAdd(c, u1, u2 * d, G);
    MulCong(c, u1 + u2 * d, k, G);
  }

  // Two parties multiplying each other's public keys meet at one point.
  lemma Agreement(c: Params, G: Point, a: nat, b: nat)
    requires IsGroup(c) && OnCurve(c, G)
    ensures Mul(c, a, Mul(c, b, G)) == Mul(c, b, Mul(c, a, G))
  {
    MulMul(c, a, b, G);
    MulMul(c, b, a, G);
    assert a * b == b * a;
  }

  // Where nonces and private keys come from: bytes handed in by the caller, or
  // the random generator's next draws.
  datatype Seed = Fixed(bytes: seq<Byte>) | Random(draws: seq<seq<Byte>>)

  // The numbers the code will try, at most four of them. A fixed seed is
  // simply tried again.
  ghost function Candidates(seed: Seed): seq<int> {
    match seed
    case Fixed(b) => if |b| < 32 then [] else seq(4, i => BigEndian(b[..32]))
    case Random(draws) => seq(|draws|, i requires 0 <= i < |draws| => BigEndian(draws[i]))
  }

  ghost predicate WellFormed(seed: Seed) {
    seed.Random? ==> |seed.draws| == 4 && forall i :: 0 <= i < 4 ==> |seed.draws[i]| == 32
  }

  // The first candidate in [1, n-1], or 0.
  ghost function FirstInRange(c: Params, candidates: seq<int>): (k: nat)
    ensures k == 0 || InRange(c, k)
  {
    if candidates == [] then 0
    else if InRange(c, candidates[0]) then candidates[0]
    else FirstInRange(c, candidates[1..])
  }
}

/** The P-256 key and signature functions on byte arrays. */
module Ecdsa {
  import opened Curve
  import opened CurveGroup
  import opened EcdsaSpec
  import opened Limbs
  import opened Montgomery
  import opened Numbers
  import opened Points
  import opened Radix

  const SUCCESS := 0
  const RANDOM_FAILED := -1
  const INVALID_PUBKEY := -2
  const INVALID_PRIVKEY := -3
  const INVALID_SIGNATURE := -4

  // The generator, and what the byte-level functions need of the constants:
  // one subtraction of n reduces any 256-bit number.
  ghost function G(d: Domain): Point
    requires d.Valid()
  {
    Affine(Dec(Val(d.gx), d.P(), d.p.ni), Dec(Val(d.gy), d.P(), d.p.ni))
  }

  ghost predicate Usable(d: Domain) {
    && d.Standard()
    && OnCurve(d.C(), G(d)) && (G(d).x != 0 || G(d).y != 0)
    && Power(B, 8) <= 2 * d.n.M()
  }

  ghost function At(p: array<Byte>, off: nat): int
    requires off + 32 <= p.Length
    reads p
  {
    BigEndian(p[off..off + 32])
  }

  // s := 32 big-endian bytes; 0 if they are in [1, n-1], -1 otherwise
  method ScalarFromBytes(d: Domain, s: array<Word>, p: array<Byte>, off: nat) returns (ret: int)
    requires d.Valid() && s.Length == 8 && off + 32 <= p.Length
    modifies s
    ensures Val(s[..]) == At(p, off)
    ensures ret == if 1 <= At(p, off) < d.C().n then 0 else -1
  {
    U256FromBytes(s, p, off);
    var r := new Word[8];
    var ns := Load(d.n.m);
    var ltN := U256Sub(r, s, ns);
    U256Set32(r, 1);
    var lt1 := U256Sub(r, s, r);
    if ltN != 0 && lt1 == 0 {
      return 0;
    }
    return -1;
  }

  // x := x mod n, for any 256-bit x
  method ModN(d: Domain, x: array<Word>)
    requires d.Valid() && x.Length == 8 && Power(B, 8) <= 2 * d.n.M()
    modifies x
    ensures Val(x[..]) == Val(old(x[..])) % d.n.M() && d.n.Elem(x)
  {
    ghost var v, n := Val(x[..]), d.n.M();
    ValBound(x[..]);
    var t := new Word[8];
    var ns := Load(d.n.m);
    var c := U256Sub(t, x, ns);
    U256CMov(x, t, 1 - c);
    DivModUnique(v, n, 1 - c, Val(x[..]));
  }

  // z := the hash as a number modulo n, in Montgomery form
  method FromHash(d: Domain, z: array<Word>, h: array<Byte>, hlen: nat)
    requires d.Valid() && z.Length == 8 && hlen <= h.Length && Power(B, 8) <= 2 * d.n.M()
    modifies z
    ensures d.n.Elem(z) && d.n.F(z) == HashInt(h[..hlen]) % d.n.M()
  {
    if hlen < 32 {
      var p := new Byte[32];
      for i := 0 to 32
        invariant forall k :: 0 <= k < i ==> p[k] == 0
      {
        p[i] := 0;
      }
      for i := 0 to hlen
        invariant forall k :: 0 <= k < 32 - hlen ==> p[k] == 0
        invariant forall k :: 0 <= k < i ==> p[32 - hlen + k] == h[k]
      {
        p[32 - hlen + i] := h[i];
      }
      U256FromBytes(z, p, 0);
      assert p[0..32] == p[..32 - hlen] + h[..hlen];
      PadZeros(p[..32 - hlen], h[..hlen], 256);
    } else {
      U256FromBytes(z, h, 0);
      assert h[0..32] == h[..hlen][..32];
    }
    ModN(d, z);
    d.n.Prep(z);
    ModMod(HashInt(h[..hlen]), d.n.M());
  }

  // x, y := the 64 bytes at off; 0 exactly for a valid public key
  method PointFromBytes(d: Domain, x: array<Word>, y: array<Word>, p: array<Byte>, off: nat) returns (ret: int)
    requires d.Good() && x.Length == 8 && y.Length == 8 && x != y && off + 64 <= p.Length
    modifies x, y
    ensures ret == 0 <==> ValidKey(d.C(), At(p, off), At(p, off + 32))
    ensures ret == 0 ==> d.A(x, y) && d.APoint(x, y) == Affine(At(p, off), At(p, off + 32))
  {
    ret := d.p.FromBytes(x, p, off);
    if ret != 0 {
      return ret;
    }
    ret := d.p.FromBytes(y, p, off + 32);
    if ret != 0 {
      return ret;
    }
    ret := d.PointCheck(x, y);
    if ret == 0 { NotOrigin(d.C(), d.F(x), d.F(y)); }
  }

  // the 64 bytes at 0 := x, y
  method PointToBytes(d: Domain, p: array<Byte>, x: array<Word>, y: array<Word>)
    requires d.Good() && d.A(x, y) && p.Length >= 64
    modifies p
    ensures Affine(At(p, 0), At(p, 32)) == d.APoint(x, y)
  {
    d.p.ToBytes(p, 0, x);
    ghost var first := p[0..32];
    d.p.ToBytes(p, 32, y);
    assert p[0..32] == first;
  }

  // gx, gy loaded into arrays
  method LoadBase(d: Domain) returns (gx: array<Word>, gy: array<Word>)
    requires Usable(d)
    ensures fresh(gx) && fresh(gy) && gx != gy && d.A(gx, gy) && d.APoint(gx, gy) == G(d)
  {
    gx := Load(d.gx);
    gy := Load(d.gy);
  }

  // sbytes := the next candidate
  method DrawCandidate(seed: Seed, tried: nat, sbytes: array<Byte>)
    requires WellFormed(seed) && tried < 4 && (seed.Fixed? ==> |seed.bytes| >= 32) && sbytes.Length == 32
    modifies sbytes
    ensures |Candidates(seed)| == 4 && At(sbytes, 0) == Candidates(seed)[tried]
  {
    var source := if seed.Fixed? then seed.bytes else seed.draws[tried];
    for i := 0 to 32
      invariant forall k :: 0 <= k < i ==> sbytes[k] == source[k]
    {
      sbytes[i] := source[i];
    }
    assert sbytes[0..32] == source[..32];
    if seed.Random? { assert source[..32] == source; }
  }

  // a scalar in [1, n-1] and its public point; at most four tries
  method ScalarGenWithPub(d: Domain, seed: Seed, sbytes: array<Byte>, s: array<Word>, x: array<Word>, y: array<Word>)
      returns (ret: int)
    requires Usable(d) && WellFormed(seed) && sbytes.Length == 32
    requires s.Length == 8 && x.Length == 8 && y.Length == 8 && x != y && s != x && s != y
    modifies sbytes, s, x, y
    ensures ret == if FirstInRange(d.C(), Candidates(seed)) == 0 then -1 else 0
    ensures ret == 0 ==> At(sbytes, 0) == Val(s[..]) == FirstInRange(d.C(), Candidates(seed))
    ensures ret == 0 ==> 0 < Val(s[..]) < d.n.M() && d.A(x, y) && d.APoint(x, y) == Mul(d.C(), Val(s[..]), G(d))
  {
    hide CurveGroup.Mul, IsGroup, Curve.OnCurve;
    if seed.Fixed? && |seed.bytes| < 32 {
      return -1;
    }
    ret := FindScalar(d, seed, sbytes, s);
    if ret != 0 {
      return -1;
    }
    var gx, gy := LoadBase(d);
    d.ScalarMult(x, y, gx, gy, s);
  }

  method FindScalar(d: Domain, seed: Seed, sbytes: array<Byte>, s: array<Word>) returns (ret: int)
    requires d.Valid() && WellFormed(seed) && sbytes.Length == 32 && s.Length == 8
    requires seed.Fixed? ==> |seed.bytes| >= 32
    modifies sbytes, s
    ensures ret == if FirstInRange(d.C(), Candidates(seed)) == 0 then -1 else 0
    ensures ret == 0 ==> At(sbytes, 0) == Val(s[..]) == FirstInRange(d.C(), Candidates(seed))
    ensures ret == 0 ==> 0 < Val(s[..]) < d.n.M()
  {
    ghost var all := Candidates(seed);
    var tried := 0;
    ret := -1;
    while ret != 0
      invariant 0 <= tried <= 4 && |all| == 4 && (ret == 0 || ret == -1)
      invariant ret != 0 ==> FirstInRange(d.C(), all) == FirstInRange(d.C(), all[tried..])
      invariant ret == 0 ==> At(sbytes, 0) == Val(s[..]) == FirstInRange(d.C(), all) && InRange(d.C(), Val(s[..]))
      decreases 4 - tried, ret != 0
    {
      if tried >= 4 {
        return -1;
      }
      DrawCandidate(seed, tried, sbytes);
      ret := ScalarFromBytes(d, s, sbytes, 0);
      assert all[tried..][1..] == all[tried + 1..];
      tried := tried + 1;
    }
  }

  // the public key of a private key
  method PublicKey(d: Domain, priv: array<Byte>, pub: array<Byte>) returns (ret: int)
    requires Usable(d) && priv.Length >= 32 && pub.Length >= 64 && priv != pub
    modifies pub
    ensures ret == if InRange(d.C(), At(priv, 0)) then SUCCESS else INVALID_PRIVKEY
    ensures ret == SUCCESS ==> Affine(At(pub, 0), At(pub, 32)) == Mul(d.C(), At(priv, 0), G(d))
  {
    hide CurveGroup.Mul, IsGroup, Curve.OnCurve;
    var s := new Word[8];
    var x := new Word[8];
    var y := new Word[8];
    ret := ScalarFromBytes(d, s, priv, 0);
    if ret != 0 {
      return INVALID_PRIVKEY;
    }
    var gx, gy := LoadBase(d);
    d.ScalarMult(x, y, gx, gy, s);
    PointToBytes(d, pub, x, y);
    return SUCCESS;
  }

  // ECDH: the abscissa of priv * peer
  method SharedSecret(d: Domain, secret: array<Byte>, priv: array<Byte>, peer: array<Byte>) returns (ret: int)
    requires Usable(d) && secret.Length >= 32 && priv.Length >= 32 && peer.Length >= 64
    requires secret != priv && secret != peer
    modifies secret
    ensures ret == SUCCESS <==> InRange(d.C(), At(priv, 0)) && ValidKey(d.C(), At(peer, 0), At(peer, 32))
    ensures ret == INVALID_PRIVKEY <==> !InRange(d.C(), At(priv, 0))
    ensures ret == INVALID_PUBKEY <==>
      InRange(d.C(), At(priv, 0)) && !ValidKey(d.C(), At(peer, 0), At(peer, 32))
    ensures ret != SUCCESS ==> secret[..] == old(secret[..])
    ensures ret == SUCCESS ==> var S := Mul(d.C(), At(priv, 0), Affine(At(peer, 0), At(peer, 32)));
                               S.Affine? && At(secret, 0) == S.x
  {
    hide CurveGroup.Mul, IsGroup, Curve.OnCurve;
    var s := new Word[8];
    var px := new Word[8];
    var py := new Word[8];
    var x := new Word[8];
    var y := new Word[8];
    ret := ScalarFromBytes(d, s, priv, 0);
    if ret != 0 {
      return INVALID_PRIVKEY;
    }
    ret := PointFromBytes(d, px, py, peer, 0);
    if ret != 0 {
      return INVALID_PUBKEY;
    }
    d.ScalarMult(x, y, px, py, s);
    d.p.ToBytes(secret, 0, x);
  }

  // Steps 1 to 3 of signing: the nonce k in Montgomery form mod n, and r
  method SignNonce(d: Domain, seed: Seed, k: array<Word>, xr: array<Word>) returns (ret: int)
    requires Usable(d) && WellFormed(seed) && k.Length == 8 && xr.Length == 8 && k != xr
    modifies k, xr
    ensures ret == if FirstInRange(d.C(), Candidates(seed)) == 0 then -1 else 0
    ensures ret == 0 ==> var k0 := FirstInRange(d.C(), Candidates(seed));
      && InRange(d.C(), k0) && d.n.Elem(k) && d.n.F(k) == k0
      && d.n.Elem(xr) && Val(xr[..]) == SignR(d.C(), G(d), k0)
  {
    hide CurveGroup.Mul, IsGroup, Curve.OnCurve;
    var kb := new Byte[32]; // shares storage with t4 in the original
    var t3 := new Word[8];
    ret := ScalarGenWithPub(d, seed, kb, k, xr, t3);
    if ret != 0 {
      return -1;
    }
    ModSmall(Val(k[..]), d.n.M());
    d.n.Prep(k);
    d.p.Done(xr);
    ModN(d, xr);
  }

  // Step 6 on numbers: k^-1 * (e + r * dU) mod n, all in Montgomery form
  method SignScalar(d: Domain, k: array<Word>, xr: array<Word>, t3: array<Word>, t4: array<Word>)
    requires d.Valid() && IsPrime(d.n.M())
    requires d.n.Elem(k) && d.n.Elem(xr) && d.n.Elem(t3) && d.n.Elem(t4) && k != xr && k != t3 && k != t4
    requires t4 != xr && t4 != t3
    modifies k, t4
    ensures d.n.Elem(t4)
    ensures d.n.F(t4) == SignS(d.C(), old(d.n.F(k)), old(d.n.F(t3)), old(d.n.F(xr)), old(d.n.F(t4)))
  {
    ghost var n, k0, e, r, dU := d.n.M(), d.n.F(k), d.n.F(t3), d.n.F(xr), d.n.F(t4);
    d.n.Inv(k, k);
    InvIsPower(k0, n);
    d.n.Mul(t4, xr, t4);
    d.n.Add(t4, t3, t4);
    d.n.Mul(t4, k, t4);
    ModMod(r * dU, n);
    CongAdd(e, e, (r * dU) % n, r * dU, n);
    ModMod(e + (r * dU) % n, n);
    CongMul(Inv(k0, n), Inv(k0, n), (e + (r * dU) % n) % n, e + r * dU, n);
  }

  // zero is held as zero only
  lemma HeldZero(m: Modulus, a: array<Word>)
    requires m.Valid() && m.Elem(a)
    ensures m.F(a) == 0 <==> Val(a[..]) == 0
  {
    DecZero(m.M(), m.ni);
    if m.F(a) == 0 { DecInjective(Val(a[..]), 0, m.M(), m.ni); }
  }

  // Steps 5 and 6: e and dU in Montgomery form
  method SignInputs(d: Domain, t3: array<Word>, t4: array<Word>, priv: array<Byte>, hash: array<Byte>, hlen: nat)
      returns (ret: int)
    requires Usable(d) && priv.Length >= 32 && hlen <= hash.Length && t3.Length == 8 && t4.Length == 8 && t3 != t4
    modifies t3, t4
    ensures d.n.Elem(t3) && d.n.F(t3) == HashInt(hash[..hlen]) % d.n.M()
    ensures ret == if InRange(d.C(), At(priv, 0)) then 0 else -1
    ensures ret == 0 ==> d.n.Elem(t4) && d.n.F(t4) == At(priv, 0)
  {
    FromHash(d, t3, hash, hlen);
    ret := ScalarFromBytes(d, t4, priv, 0);
    if ret == 0 {
      ModSmall(Val(t4[..]), d.n.M());
      d.n.Prep(t4);
    }
  }

  // Step 7: s after r, unless it is zero
  method SignOutput(d: Domain, sig: array<Byte>, t4: array<Word>) returns (ret: int)
    requires d.Valid() && sig.Length >= 64 && d.n.Elem(t4)
    modifies sig
    ensures d.n.F(t4) == 0 ==> ret == RANDOM_FAILED && At(sig, 0) == 0 && sig[32..] == old(sig[32..])
    ensures d.n.F(t4) != 0 ==> ret == SUCCESS && At(sig, 0) == old(At(sig, 0)) && At(sig, 32) == d.n.F(t4)
    ensures d.n.F(t4) != 0 ==> sig[64..] == old(sig[64..])
  {
    HeldZero(d.n, t4);
    var zeroS := U256Diff0(t4);
    if zeroS == 0 {
      U256ToBytes(sig, 0, t4); // undoes the early output of r
      return RANDOM_FAILED;
    }
    ghost var first := sig[0..32];
    d.n.ToBytes(sig, 32, t4);
    assert sig[0..32] == first;
    return SUCCESS;
  }

  // Steps 5 to 7: with r in xr and the nonce in k, the second half of sig
  method SignFinish(d: Domain, k: array<Word>, xr: array<Word>, sig: array<Byte>, priv: array<Byte>,
                    hash: array<Byte>, hlen: nat) returns (ret: int)
    requires Usable(d) && sig.Length >= 64 && priv.Length >= 32 && hlen <= hash.Length
    requires sig != priv && sig != hash && k != xr
    requires d.n.Elem(k) && d.n.Elem(xr)
    modifies sig, k, xr
    ensures !InRange(d.C(), At(priv, 0)) ==> ret == INVALID_PRIVKEY && sig[..] == old(sig[..])
    ensures InRange(d.C(), At(priv, 0)) ==>
      var s := SignS(d.C(), old(d.n.F(k)), HashInt(hash[..hlen]) % d.n.M(), Val(old(xr[..])), At(priv, 0));
      if s == 0 then ret == RANDOM_FAILED && At(sig, 0) == 0 && sig[32..] == old(sig[32..])
      else sig[64..] == old(sig[64..]) && ret == SUCCESS && At(sig, 0) == old(At(sig, 0)) && At(sig, 32) == s
  {
    hide SignS, CurveGroup.Mul, Curve.OnCurve, Val, Dec, BigEndian, HashInt;
    var t3 := new Word[8];
    var t4 := new Word[8];
    ModSmall(Val(xr[..]), d.n.M());
    d.n.Prep(xr);
    ret := SignInputs(d, t3, t4, priv, hash, hlen);
    if ret != 0 {
      return INVALID_PRIVKEY;
    }
    SignScalar(d, k, xr, t3, t4);
    ret := SignOutput(d, sig, t4);
  }

  ghost function SignOutcome(d: Domain, seed: Seed, priv: int, hash: seq<Byte>): Outcome
    requires Usable(d)
  {
    EcdsaSpec.Sign(d.C(), G(d), FirstInRange(d.C(), Candidates(seed)), priv, HashInt(hash) % d.n.M())
  }

  // The r that is written before the private key is read, 0 if there is none.
  ghost function EarlyR(d: Domain, seed: Seed): int
    requires Usable(d)
  {
    var k := FirstInRange(d.C(), Candidates(seed));
    if k == 0 then 0 else SignR(d.C(), G(d), k)
  }

  // p256_ecdsa_sign; a failure takes the early r back, except when the private
  // key is invalid
  method EcdsaSign(d: Domain, seed: Seed, sig: array<Byte>, priv: array<Byte>, hash: array<Byte>, hlen: nat)
      returns (ret: int)
    requires Usable(d) && WellFormed(seed) && sig.Length >= 64 && priv.Length >= 32 && hlen <= hash.Length
    requires sig != priv && sig != hash
    modifies sig
    ensures match SignOutcome(d, seed, At(priv, 0), hash[..hlen])
            case Failed(code) => ret == code && sig[32..] == old(sig[32..])
              && (if EarlyR(d, seed) == 0 then sig[..32] == old(sig[..32])
                  else At(sig, 0) == if InRange(d.C(), At(priv, 0)) then 0 else EarlyR(d, seed))
            case Signed(r, s) => ret == SUCCESS && At(sig, 0) == r && At(sig, 32) == s && sig[64..] == old(sig[64..])
  {
    hide CurveGroup.Mul, IsGroup, Curve.OnCurve, SignR, SignS;
    var xr := new Word[8];
    var k := new Word[8];
    ret := SignNonce(d, seed, k, xr);
    if ret != 0 {
      return RANDOM_FAILED;
    }
    var zeroR := U256Diff0(xr);
    if zeroR == 0 {
      return RANDOM_FAILED;
    }
    U256ToBytes(sig, 0, xr);
    ret := SignFinish(d, k, xr, sig, priv, hash, hlen);
  }

  // Step 4 of verifying: u1 and u2 as plain integers
  method VerifyScalars(d: Domain, r: array<Word>, s: array<Word>, e: array<Word>, u1: array<Word>, u2: array<Word>)
    requires d.Valid() && IsPrime(d.n.M()) && r.Length == 8 && s.Length == 8 && d.n.Elem(e)
    requires 0 <= Val(r[..]) < d.n.M() && 0 <= Val(s[..]) < d.n.M()
    requires u1.Length == 8 && u2.Length == 8 && u1 != u2 && s != r && s != e && {u1, u2} !! {r, s, e}
    modifies s, u1, u2
    ensures Val(u1[..]) == U1(d.C(), old(d.n.F(e)), Val(old(s[..])))
    ensures Val(u2[..]) == U2(d.C(), Val(old(r[..])), Val(old(s[..])))
  {
    ghost var n, s0, r0 := d.n.M(), Val(s[..]), Val(r[..]);
    ModSmall(s0, n);
    ModSmall(r0, n);
    d.n.Prep(s);
    d.n.Inv(s, s);
    InvIsPower(s0, n);
    d.n.Mul(u1, e, s);
    d.n.Done(u1);
    U256CMov(u2, r, 1);
    d.n.Prep(u2);
    d.n.Mul(u2, u2, s);
    d.n.Done(u2);
  }

  // Steps 5 to 7: x := the abscissa of u1 G + u2 Q, reduced mod n
  method VerifyPoint(d: Domain, px: array<Word>, py: array<Word>, u1: array<Word>, u2: array<Word>)
      returns (x: array<Word>)
    requires Usable(d) && d.A(px, py) && u1.Length == 8 && u2.Length == 8
    requires 0 <= Val(u1[..]) < d.n.M() && 0 < Val(u2[..]) < d.n.M()
    ensures fresh(x) && x.Length == 8
    ensures Val(x[..]) == Abscissa(Curve.Add(d.C(), Mul(d.C(), Val(u1[..]), G(d)),
                                             Mul(d.C(), Val(u2[..]), d.APoint(px, py)))) % d.n.M()
  {
    hide CurveGroup.Mul, IsGroup, Curve.OnCurve, Curve.Add;
    ghost var Q, a, b := d.APoint(px, py), Val(u1[..]), Val(u2[..]);
    var ex := new Word[8];
    var ey := new Word[8];
    d.ScalarMult(ex, ey, px, py, u2);
    var zero := U256Diff0(u1);
    x := new Word[8];
    if zero == 0 {
      NoMultiple(d.C(), G(d), d.APoint(ex, ey));
      U256CMov(x, ex, 1);
    } else {
      VerifySum(d, x, ex, ey, u1);
    }
    d.p.Done(x);
    ModN(d, x);
  }

  lemma NoMultiple(c: Params, P: Point, Q: Point)
    requires Sound(c)
    ensures Curve.Add(c, Mul(c, 0, P), Q) == Q
  {
  }

  // x := the abscissa of u1 G + (ex, ey), 0 at infinity
  method VerifySum(d: Domain, x: array<Word>, ex: array<Word>, ey: array<Word>, u1: array<Word>)
    requires Usable(d) && d.A(ex, ey) && u1.Length == 8 && 0 < Val(u1[..]) < d.n.M()
    requires x.Length == 8 && x !in {ex, ey, u1}
    modifies x
    ensures d.E(x)
    ensures d.F(x) == Abscissa(Curve.Add(d.C(), Mul(d.C(), Val(u1[..]), G(d)), old(d.APoint(ex, ey))))
  {
    hide CurveGroup.Mul, IsGroup, Curve.OnCurve, Curve.Add;
    var gx, gy := LoadBase(d);
    var rx := new Word[8];
    var ry := new Word[8];
    var y := new Word[8];
    d.ScalarMult(rx, ry, gx, gy, u1);
    d.PointAddOrDoubleLeaky(x, y, rx, ry, ex, ey);
  }

  // Step 1, 3 and 4: range checks, the hash, and both scalars
  method VerifyPrepare(d: Domain, sig: array<Byte>, hash: array<Byte>, hlen: nat,
                       r: array<Word>, u1: array<Word>, u2: array<Word>) returns (ret: int)
    requires Usable(d) && sig.Length >= 64 && hlen <= hash.Length
    requires r.Length == 8 && u1.Length == 8 && u2.Length == 8 && r != u1 && r != u2 && u1 != u2
    modifies r, u1, u2
    ensures ret == 0 <==> InRange(d.C(), At(sig, 0)) && InRange(d.C(), At(sig, 32))
    ensures ret == 0 ==> Val(r[..]) == At(sig, 0)
    ensures ret == 0 ==> Val(u1[..]) == U1(d.C(), HashInt(hash[..hlen]) % d.n.M(), At(sig, 32))
    ensures ret == 0 ==> Val(u2[..]) == U2(d.C(), At(sig, 0), At(sig, 32))
    ensures ret == 0 ==> 0 <= Val(u1[..]) < d.n.M() && 0 < Val(u2[..]) < d.n.M()
  {
    hide CurveGroup.Mul, Curve.OnCurve, U1, U2;
    var s := new Word[8];
    ret := ScalarFromBytes(d, r, sig, 0);
    if ret != 0 {
      return INVALID_SIGNATURE;
    }
    ret := ScalarFromBytes(d, s, sig, 32);
    if ret != 0 {
      return INVALID_SIGNATURE;
    }
    var e := new Word[8];
    FromHash(d, e, hash, hlen);
    ModMod(HashInt(hash[..hlen]), d.n.M());
    VerifyScalars(d, r, s, e, u1, u2);
    U2Nonzero(d.C(), At(sig, 0), At(sig, 32));
  }

  // Steps 5 to 8: is the abscissa of u1 G + u2 Q, modulo n, equal to r?
  method VerifyCompare(d: Domain, px: array<Word>, py: array<Word>, u1: array<Word>, u2: array<Word>, r: array<Word>)
      returns (ret: int)
    requires Usable(d) && d.A(px, py) && u1.Length == 8 && u2.Length == 8 && r.Length == 8
    requires 0 <= Val(u1[..]) < d.n.M() && 0 < Val(u2[..]) < d.n.M()
    ensures ret == if Abscissa(Curve.Add(d.C(), Mul(d.C(), Val(u1[..]), G(d)),
                                         Mul(d.C(), Val(u2[..]), d.APoint(px, py)))) % d.n.M() == Val(r[..])
                   then SUCCESS else INVALID_SIGNATURE
  {
    hide CurveGroup.Mul, IsGroup, Curve.OnCurve, Curve.Add;
    var x := VerifyPoint(d, px, py, u1, u2);
    var diff := U256Diff(x, r);
    return if diff == 0 then SUCCESS else INVALID_SIGNATURE;
  }

  ghost function VerifyOutcome(d: Domain, x: int, y: int, r: int, s: int, hash: seq<Byte>): int
    requires Usable(d)
  {
    EcdsaSpec.Verify(d.C(), G(d), x, y, r, s, HashInt(hash) % d.n.M())
  }

  // p256_ecdsa_verify
  method EcdsaVerify(d: Domain, sig: array<Byte>, pub: array<Byte>, hash: array<Byte>, hlen: nat) returns (ret: int)
    requires Usable(d) && sig.Length >= 64 && pub.Length >= 64 && hlen <= hash.Length
    ensures ret == VerifyOutcome(d, At(pub, 0), At(pub, 32), At(sig, 0), At(sig, 32), hash[..hlen])
  {
    hide CurveGroup.Mul, IsGroup, Curve.OnCurve, Curve.Add, U1, U2;
    hide Val, Dec, BigEndian, HashInt, Modulus.Valid;
    var r := new Word[8];
    var u1 := new Word[8];
    var u2 := new Word[8];
    ret := VerifyPrepare(d, sig, hash, hlen, r, u1, u2);
    if ret != 0 {
      return INVALID_SIGNATURE;
    }
    var px := new Word[8];
    var py := new Word[8];
    ret := PointFromBytes(d, px, py, pub, 0);
    if ret != 0 {
      return INVALID_PUBKEY;
    }
    ret := VerifyCompare(d, px, py, u1, u2, r);
  }

  // r/s is not 0 modulo n, so the ladder gets a scalar it accepts.
  lemma U2Nonzero(c: Params, r: int, s: int)
    requires IsPrime(c.n) && InRange(c, r) && InRange(c, s)
    ensures U2(c, r, s) != 0
  {
    ModSmall(r, c.n);
    ModSmall(s, c.n);
    if U2(c, r, s) == 0 {
      Euclid(r, Inv(s, c.n), c.n);
      ModSmall(0, c.n);
      CongMul(s, s, Inv(s, c.n), 0, c.n);
    }
  }

  // ------------------------------------------------------- whole exchanges

  // A signature made with a private key is accepted under its public key.
  lemma SignedIsAccepted(d: Domain, seed: Seed, priv: nat, hash: seq<Byte>)
    requires Usable(d) && SignOutcome(d, seed, priv, hash).Signed?
    ensures InRange(d.C(), priv) && Mul(d.C(), priv, G(d)).Affine?
    ensures var Q := Mul(d.C(), priv, G(d)); var o := SignOutcome(d, seed, priv, hash);
            VerifyOutcome(d, Q.x, Q.y, o.r, o.s, hash) == SUCCESS
  {
    hide Curve.Add, CurveGroup.Mul, IsGroup, SignS, SignR;
    var c := d.C();
    FiniteMultiple(c, priv, G(d));
    Completeness(c, G(d), FirstInRange(c, Candidates(seed)), priv, HashInt(hash) % c.n);
  }

  // Generate, sign, verify, on bytes.
  method SignThenVerify(d: Domain, seed: Seed, priv: array<Byte>, hash: array<Byte>, hlen: nat)
      returns (signed: int, verdict: int)
    requires Usable(d) && WellFormed(seed) && priv.Length >= 32 && hlen <= hash.Length
    ensures signed == SUCCESS <==> SignOutcome(d, seed, At(priv, 0), hash[..hlen]).Signed?
    ensures signed == SUCCESS ==> verdict == SUCCESS
  {
    var pub := new Byte[64];
    var sig := new Byte[64];
    var ret := PublicKey(d, priv, pub);
    signed := EcdsaSign(d, seed, sig, priv, hash, hlen);
    verdict := EcdsaVerify(d, sig, pub, hash, hlen);
    if signed == SUCCESS {
      SignedIsAccepted(d, seed, At(priv, 0), hash[..hlen]);
    }
  }

  // Both ends of a key exchange compute the same secret.
  lemma SecretsAgree(d: Domain, a: nat, b: nat)
    requires Usable(d) && InRange(d.C(), a) && InRange(d.C(), b)
    ensures var A, P := Mul(d.C(), a, G(d)), Mul(d.C(), b, G(d));
            && Mul(d.C(), a, P) == Mul(d.C(), b, A) && Mul(d.C(), a, P).Affine?
  {
    hide Curve.Add, CurveGroup.Mul, IsGroup;
    Agreement(d.C(), G(d), a, b);
    FiniteMultiple(d.C(), b, G(d));
    FiniteMultiple(d.C(), a, Mul(d.C(), b, G(d)));
  }
}
