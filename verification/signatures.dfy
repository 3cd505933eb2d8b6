/** What the outcomes of signing and verifying say: the signature equation
    without divisions, exactly which signatures are accepted, and how the hash
    enters. */
module Signatures {
  import opened Curve
  import opened CurveGroup
  import opened Ecdsa
  import opened EcdsaSpec
  import opened Limbs
  import opened Numbers
  import opened Points
  import opened Radix

  // --------------------------------------------------------------- the hash

  // The number is read from the first 32 bytes, leading zero bytes do not
  // count, and full-length hashes are told apart.
  lemma HashIntReads(h: seq<Byte>)
    ensures |h| >= 32 ==> HashInt(h) == HashInt(h[..32])
    ensures |h| < 32 ==> HashInt([0] + h) == HashInt(h)
    ensures |h| < 32 ==> forall b: Byte :: HashInt(h + [b]) == 256 * HashInt(h) + b
    ensures HashInt([]) == 0
  {
    hide Value;
    ValueZero([], 256);
    if |h| < 32 {
      if |h| == 31 { assert ([0] + h)[..32] == [0] + h; }
      PadZeros([0], h, 256);
      forall b: Byte ensures HashInt(h + [b]) == 256 * HashInt(h) + b {
        ValueSnoc(h, b, 256);
        if |h| == 31 { assert (h + [b])[..32] == h + [b]; }
      }
    } else {
      assert h[..32][..32] == h[..32];
    }
  }

  lemma HashIntDetermines(h: seq<Byte>, b: seq<Byte>)
    requires |h| == |b| == 32 && BigEndian(b) == HashInt(h)
    ensures b == h
  {
    hide Value;
    assert h[..32] == h;
    ValueInjective(b, h, 256);
  }

  lemma HashesDiffer(h: seq<Byte>, h': seq<Byte>)
    requires |h| >= 32 && |h'| >= 32
    ensures HashInt(h) == HashInt(h') <==> h[..32] == h'[..32]
  {
    hide Value;
    if HashInt(h) == HashInt(h') { ValueInjective(h[..32], h'[..32], 256); }
  }

  // ---------------------------------------------------- what a signature is

  // s is the one residue with k s = e + r d.
  lemma SignSIff(c: Params, k: int, e: int, r: int, d: int, s: int)
    requires IsPrime(c.n) && 1 <= k < c.n
    ensures s == SignS(c, k, e, r, d) <==> 0 <= s < c.n && (k * s) % c.n == (e + r * d) % c.n
  {
    var n, t := c.n, e + r * d;
    var v := SignS(c, k, e, r, d);
    ModSmall(k, n);
    DivMod(Inv(k, n) * t, n);
    TimesInverse(k, t, n);
    if 0 <= s < n && (k * s) % n == t % n {
      Cancel(k, s, v, n);
      ModSmall(s, n);
      ModSmall(v, n);
    }
  }

  lemma TimesInverse(k: int, t: int, n: int)
    requires IsPrime(n) && k % n != 0
    ensures (k * ((Inv(k, n) * t) % n)) % n == t % n
  {
    var i := Inv(k, n);
    ModMul(k, i * t, n);
    MulAssoc(k, i, t);
    ModSmall(1, n);
    CongMul(k * i, 1, t, t, n);
  }

  // Under one nonce and key, hashes that differ modulo n are signed
  // differently.
  lemma HashIsSigned(c: Params, k: int, e: int, e': int, r: int, d: int)
    requires IsPrime(c.n) && 1 <= k < c.n && e % c.n != e' % c.n
    ensures SignS(c, k, e, r, d) != SignS(c, k, e', r, d)
  {
    var s := SignS(c, k, e, r, d);
    SignSIff(c, k, e, r, d, s);
    SignSIff(c, k, e', r, d, s);
    if (e + r * d) % c.n == (e' + r * d) % c.n {
      CongSub(e + r * d, e' + r * d, r * d, r * d, c.n);
    }
  }

  lemma SignRIs(c: Params, G: Point, k: nat)
    requires IsGroup(c) && G.Affine? && OnCurve(c, G) && 1 <= k < c.n
    ensures Mul(c, k, G).Affine? && SignR(c, G, k) == Mul(c, k, G).x % c.n && 0 <= SignR(c, G, k) < c.n
  {
    hide Mul;
    ModSmall(k, c.n);
    MulNonzero(c, k, G);
    DivMod(Mul(c, k, G).x, c.n);
  }

  // (r, s) is a signature of e made with nonce k and private key d.
  ghost predicate IsSignature(c: Params, G: Point, k: nat, d: int, e: int, r: int, s: int)
    requires IsGroup(c)
  {
    && 1 <= k < c.n && 1 <= d < c.n && 1 <= r < c.n && 1 <= s < c.n
    && Mul(c, k, G).Affine? && Mul(c, k, G).x % c.n == r
    && (k * s) % c.n == (e + r * d) % c.n
  }

  // Signing succeeds with (r, s) exactly when that is one, and otherwise tells
  // an invalid private key from a bad nonce.
  lemma SignIff(c: Params, G: Point, k: nat, d: int, e: int, r: int, s: int)
    requires IsGroup(c) && G.Affine? && OnCurve(c, G) && k < c.n
    ensures Sign(c, G, k, d, e) == Signed(r, s) <==> IsSignature(c, G, k, d, e, r, s)
    ensures Sign(c, G, k, d, e) == Failed(-3) <==>
              k != 0 && Mul(c, k, G).Affine? && Mul(c, k, G).x % c.n != 0 && !(1 <= d < c.n)
    ensures Sign(c, G, k, d, e).Failed? ==> Sign(c, G, k, d, e).code == -3 || Sign(c, G, k, d, e).code == -1
  {
    hide Mul, SignR, SignS, IsGroup;
    GroupIsSound(c);
    if k != 0 {
      SignRIs(c, G, k);
      SignSIff(c, k, e, r, d, s);
      SignSIff(c, k, e, r, d, SignS(c, k, e, r, d));
    }
  }

  // ------------------------------------------------------- which nonce it is

  // A fixed nonce is read from its first 32 bytes, and taken if it is from 1
  // to n - 1.
  lemma FixedNonce(c: Params, b: seq<Byte>)
    ensures FirstInRange(c, Candidates(Fixed(b))) ==
              if |b| >= 32 && 1 <= BigEndian(b[..32]) < c.n then BigEndian(b[..32]) else 0
  {
    hide BigEndian;
    var s := Candidates(Fixed(b));
    FirstOf(c, s);
    if |b| >= 32 { assert s[0] == BigEndian(b[..32]); }
  }

  // Of four draws the first in that range is taken.
  lemma DrawnNonce(c: Params, draws: seq<seq<Byte>>)
    requires WellFormed(Random(draws))
    ensures var k := FirstInRange(c, Candidates(Random(draws)));
            && (k == 0 <==> forall i :: 0 <= i < 4 ==> !(1 <= BigEndian(draws[i]) < c.n))
            && (k != 0 ==>
                  exists i :: 0 <= i < 4 && BigEndian(draws[i]) == k
                              && forall j :: 0 <= j < i ==> !(1 <= BigEndian(draws[j]) < c.n))
  {
    hide BigEndian, FirstInRange;
    var s := Candidates(Random(draws));
    var k := FirstInRange(c, s);
    FirstOf(c, s);
    forall i | 0 <= i < 4 ensures s[i] == BigEndian(draws[i]) {}
    if k == 0 {
      forall i | 0 <= i < 4 ensures !(1 <= BigEndian(draws[i]) < c.n) { assert !(1 <= s[i] < c.n); }
    } else {
      var i :| 0 <= i < |s| && s[i] == k && forall j :: 0 <= j < i ==> !(1 <= s[j] < c.n);
      forall j | 0 <= j < i ensures !(1 <= BigEndian(draws[j]) < c.n) { assert !(1 <= s[j] < c.n); }
      assert BigEndian(draws[i]) == k;
    }
  }

  lemma {:induction false} FirstOf(c: Params, s: seq<int>)
    ensures FirstInRange(c, s) == 0 <==> forall i :: 0 <= i < |s| ==> !(1 <= s[i] < c.n)
    ensures FirstInRange(c, s) != 0 ==>
              exists i :: 0 <= i < |s| && s[i] == FirstInRange(c, s) && forall j :: 0 <= j < i ==> !(1 <= s[j] < c.n)
  {
    if s != [] {
      FirstOf(c, s[1..]);
      assert forall i :: 0 < i < |s| ==> s[i] == s[1..][i - 1];
      if FirstInRange(c, s) != 0 && !InRange(c, s[0]) {
        var i :| 0 <= i < |s[1..]| && s[1..][i] == FirstInRange(c, s[1..])
                 && forall j :: 0 <= j < i ==> !(1 <= s[1..][j] < c.n);
        assert s[i + 1] == FirstInRange(c, s);
      }
    }
  }

  // ------------------------------------------------ what verification means

  // R is a finite point with s R = e G + r Q and an abscissa of residue r.
  ghost predicate Solves(c: Params, G: Point, Q: Point, R: Point, r: nat, s: nat, e: nat)
    requires IsGroup(c)
  {
    && R.Affine? && OnCurve(c, R) && R.x % c.n == r
    && Mul(c, s, R) == Add(c, Mul(c, e, G), Mul(c, r, Q))
  }

  // The point verification computes.
  ghost function Computed(c: Params, G: Point, Q: Point, r: int, s: int, e: int): Point
    requires IsGroup(c)
  {
    Add(c, Mul(c, U1(c, e, s), G), Mul(c, U2(c, r, s), Q))
  }

  lemma ScaledBack(n: int, v: int, s: int)
    requires IsPrime(n) && s % n != 0
    ensures (s * ((v * Inv(s, n)) % n)) % n == v % n
  {
    TimesInverse(s, v, n);
    assert Inv(s, n) * v == v * Inv(s, n);
  }

  lemma ComputedSolves(c: Params, G: Point, Q: Point, r: nat, s: nat, e: nat)
    requires IsGroup(c) && OnCurve(c, G) && OnCurve(c, Q) && 1 <= s < c.n
    ensures OnCurve(c, Computed(c, G, Q, r, s, e))
    ensures Mul(c, s, Computed(c, G, Q, r, s, e)) == Add(c, Mul(c, e, G), Mul(c, r, Q))
  {
    hide Mul, Add, IsGroup, OnCurve, U1, U2;
    GroupIsSound(c);
    ModSmall(s, c.n);
    var u1: nat, u2: nat := U1(c, e, s), U2(c, r, s);
    UnscaledScalars(c, r, s, e);
    MulOnCurve(c, u1, G);
    MulOnCurve(c, u2, Q);
    AddOnCurve(c, Mul(c, u1, G), Mul(c, u2, Q));
    MulSum(c, s, Mul(c, u1, G), Mul(c, u2, Q));
    MulMul(c, s, u1, G);
    MulMul(c, s, u2, Q);
    MulCong(c, s * u1, e, G);
    MulCong(c, s * u2, r, Q);
  }

  lemma UnscaledScalars(c: Params, r: int, s: int, e: int)
    requires IsPrime(c.n) && s % c.n != 0
    ensures (s * U1(c, e, s)) % c.n == e % c.n && (s * U2(c, r, s)) % c.n == r % c.n
  {
    ScaledBack(c.n, e, s);
    ScaledBack(c.n, r, s);
  }

  // s can be divided by in the group.
  lemma MulCancels(c: Params, s: nat, R: Point, R': Point)
    requires IsGroup(c) && OnCurve(c, R) && OnCurve(c, R') && 1 <= s < c.n && Mul(c, s, R) == Mul(c, s, R')
    ensures R == R'
  {
    hide Mul, Add, IsGroup, OnCurve;
    GroupIsSound(c);
    ModSmall(s, c.n);
    ModSmall(1, c.n);
    var w: nat := Inv(s, c.n);
    assert w * s == s * w;
    MulMul(c, w, s, R);
    MulMul(c, w, s, R');
    MulCong(c, w * s, 1, R);
    MulCong(c, w * s, 1, R');
    MulOne(c, R);
    MulOne(c, R');
  }

  // Exactly these signatures are accepted, under any valid key; the other
  // verdicts are for an invalid key and for all the rest.
  lemma VerifyIff(c: Params, G: Point, x: int, y: int, r: nat, s: nat, e: nat)
    requires IsGroup(c) && OnCurve(c, G)
    ensures Verify(c, G, x, y, r, s, e) == 0 <==>
              && 1 <= r < c.n && 1 <= s < c.n && ValidKey(c, x, y)
              && exists R: Point :: Solves(c, G, Affine(x, y), R, r, s, e)
    ensures Verify(c, G, x, y, r, s, e) == -2 <==> 1 <= r < c.n && 1 <= s < c.n && !ValidKey(c, x, y)
    ensures Verify(c, G, x, y, r, s, e) in {0, -2, -4}
  {
    hide Mul, Add, IsGroup, U1, U2;
    GroupIsSound(c);
    if 1 <= r < c.n && 1 <= s < c.n && ValidKey(c, x, y) {
      var Q := Affine(x, y);
      var R0 := Computed(c, G, Q, r, s, e);
      ComputedSolves(c, G, Q, r, s, e);
      ModSmall(0, c.n);
      if Verify(c, G, x, y, r, s, e) == 0 { assert Solves(c, G, Q, R0, r, s, e); }
      forall R: Point | Solves(c, G, Q, R, r, s, e) ensures R == R0 { MulCancels(c, s, R, R0); }
    }
  }

  // Under the key of d, exactly the pairs that signing e with d can produce.
  lemma VerifiedIsSigned(c: Params, G: Point, d: nat, r: nat, s: nat, e: nat)
    requires IsGroup(c) && G.Affine? && OnCurve(c, G) && 1 <= d < c.n && 1 <= r < c.n && 1 <= s < c.n
    ensures Mul(c, d, G).Affine?
    ensures var Q := Mul(c, d, G);
            Verify(c, G, Q.x, Q.y, r, s, e) == 0 <==> exists k: nat :: IsSignature(c, G, k, d, e, r, s)
  {
    hide Mul, Add, IsGroup, OnCurve, U1, U2, SignS, SignR;
    GroupIsSound(c);
    ModSmall(d, c.n);
    MulNonzero(c, d, G);
    MulOnCurve(c, d, G);
    KeyIsValid(c, Mul(c, d, G));
    var k: nat := NonceOf(c, d, r, s, e);
    if Verify(c, G, Mul(c, d, G).x, Mul(c, d, G).y, r, s, e) == 0 {
      AcceptedNonce(c, G, d, r, s, e);
      assert IsSignature(c, G, k, d, e, r, s);
    }
    forall j: nat | IsSignature(c, G, j, d, e, r, s)
      ensures Verify(c, G, Mul(c, d, G).x, Mul(c, d, G).y, r, s, e) == 0
    {
      SignRIs(c, G, j);
      SignSIff(c, j, e, r, d, s);
      Completeness(c, G, j, d, e);
    }
  }

  lemma KeyIsValid(c: Params, Q: Point)
    requires c.p > 3 && Q.Affine? && OnCurve(c, Q)
    ensures ValidKey(c, Q.x, Q.y) && Q == Affine(Q.x, Q.y)
  {
  }

  // (e + r d) / s
  ghost function NonceOf(c: Params, d: int, r: int, s: int, e: int): (k: nat)
    requires IsPrime(c.n)
  {
    DivMod(Inv(s, c.n) * (e + r * d), c.n);
    (Inv(s, c.n) * (e + r * d)) % c.n
  }

  lemma AcceptedNonce(c: Params, G: Point, d: nat, r: nat, s: nat, e: nat)
    requires IsGroup(c) && OnCurve(c, G) && 1 <= d < c.n && 1 <= r < c.n && 1 <= s < c.n
    requires Accepts(c, G, Mul(c, d, G), e, r, s)
    ensures IsSignature(c, G, NonceOf(c, d, r, s, e), d, e, r, s)
  {
    hide Mul, Add, IsGroup, OnCurve;
    GroupIsSound(c);
    var n := c.n;
    var u1: nat, u2: nat, k := U1(c, e, s), U2(c, r, s), NonceOf(c, d, r, s, e);
    DivMod(Inv(s, n) * (e + r * d), n);
    SumOfQuotients(n, Inv(s, n), e, r, d);
    ModMod(Inv(s, n) * (e + r * d), n);
    MulMul(c, u2, d, G);
    MulAdd(c, u1, u2 * d, G);
    MulCong(c, u1 + u2 * d, k, G);
    ModSmall(0, n);
    NoAbscissa(c, G);
    ModSmall(s, n);
    TimesInverse(s, e + r * d, n);
    assert k * s == s * k;
  }

  lemma NoAbscissa(c: Params, G: Point)
    requires Sound(c)
    ensures Mul(c, 0, G) == Zero
  {
  }

  // The r a failed run may leave behind.
  lemma EarlyRIs(d: Domain, seed: Seed)
    requires Usable(d)
    ensures FirstInRange(d.C(), Candidates(seed)) == 0 ==> EarlyR(d, seed) == 0
    ensures FirstInRange(d.C(), Candidates(seed)) != 0 ==>
              var R := Mul(d.C(), FirstInRange(d.C(), Candidates(seed)), G(d));
              R.Affine? && EarlyR(d, seed) == R.x % d.C().n
  {
    hide Mul, Add, IsGroup, OnCurve, FirstInRange, Candidates, Points.Domain.Valid;
    var k := FirstInRange(d.C(), Candidates(seed));
    if k != 0 { SignRIs(d.C(), G(d), k); }
  }

  // The same for the bytes: hash, coordinates and signature as numbers.
  lemma SignOutcomeIff(d: Domain, seed: Seed, priv: int, hash: seq<Byte>, r: int, s: int)
    requires Usable(d)
    ensures var k := FirstInRange(d.C(), Candidates(seed));
            SignOutcome(d, seed, priv, hash) == Signed(r, s) <==>
              IsSignature(d.C(), G(d), k, priv, HashInt(hash), r, s)
  {
    hide Mul, Add, IsGroup, OnCurve, HashInt, Sign, Points.Domain.Valid, FirstInRange, Candidates;
    var c := d.C();
    var k, h := FirstInRange(c, Candidates(seed)), HashInt(hash);
    GroupIsSound(c);
    ModMod(h, c.n);
    CongAdd(h, h % c.n, r * priv, r * priv, c.n);
    SignIff(c, G(d), k, priv, h % c.n, r, s);
  }

  lemma OutcomeIff(d: Domain, x: int, y: int, r: nat, s: nat, hash: seq<Byte>)
    requires Usable(d)
    ensures VerifyOutcome(d, x, y, r, s, hash) == SUCCESS <==>
              && 1 <= r < d.C().n && 1 <= s < d.C().n && ValidKey(d.C(), x, y)
              && exists R: Point :: Solves(d.C(), G(d), Affine(x, y), R, r, s, HashInt(hash))
    ensures VerifyOutcome(d, x, y, r, s, hash) == INVALID_PUBKEY <==>
              1 <= r < d.C().n && 1 <= s < d.C().n && !ValidKey(d.C(), x, y)
    ensures VerifyOutcome(d, x, y, r, s, hash) in {SUCCESS, INVALID_PUBKEY, INVALID_SIGNATURE}
  {
    hide Mul, Add, IsGroup, OnCurve, HashInt, Verify, Points.Domain.Valid;
    var c := d.C();
    var h: nat := HashInt(hash);
    GroupIsSound(c);
    DivMod(h, c.n);
    MulMod(c, h, G(d));
    VerifyIff(c, G(d), x, y, r, s, h % c.n);
    forall R: Point
      ensures Solves(c, G(d), Affine(x, y), R, r, s, h) <==> Solves(c, G(d), Affine(x, y), R, r, s, h % c.n)
    {
    }
  }

  lemma OutcomeIsSigned(d: Domain, priv: nat, r: nat, s: nat, hash: seq<Byte>)
    requires Usable(d) && 1 <= priv < d.C().n && 1 <= r < d.C().n && 1 <= s < d.C().n
    ensures Mul(d.C(), priv, G(d)).Affine?
    ensures var Q := Mul(d.C(), priv, G(d));
            VerifyOutcome(d, Q.x, Q.y, r, s, hash) == SUCCESS <==>
              exists k: nat :: IsSignature(d.C(), G(d), k, priv, HashInt(hash), r, s)
  {
    hide Mul, Add, IsGroup, OnCurve, HashInt, Verify, Points.Domain.Valid;
    var c := d.C();
    var h: nat := HashInt(hash);
    GroupIsSound(c);
    DivMod(h, c.n);
    ModMod(h, c.n);
    CongAdd(h, h % c.n, r * priv, r * priv, c.n);
    VerifiedIsSigned(c, G(d), priv, r, s, h % c.n);
    forall k: nat
      ensures IsSignature(c, G(d), k, priv, h, r, s) <==> IsSignature(c, G(d), k, priv, h % c.n, r, s)
    {
    }
  }
}
