/** The constants of P-256: that they satisfy everything the arithmetic and the
    ladder ask of them, short of the group hypotheses. */
module Constants {
  import opened Curve
  import opened CurveGroup
  import opened Ecdsa
  import opened Limbs
  import opened Montgomery
  import opened Numbers
  import opened Points

  const P := 0xffffffff00000001000000000000000000000000ffffffffffffffffffffffff
  const N := 0xffffffff00000000ffffffffffffffffbce6faada7179e84f3b9cac2fc632551
  const B0 := 0x5ac635d8aa3a93e7b3ebbd55769886bc651d06b0cc53b0f63bce3c3e27d2604b
  const GX := 0x6b17d1f2e12c4247f8bce6e563a440f277037d812deb33a0f4a13945d898c296
  const GY := 0x4fe342e2fe1a7f9b8ee7eb4a7c0f9e162bce33576b315ececbb6406837bf51f5
  const R256 := 0x10000000000000000000000000000000000000000000000000000000000000000

  // p, n, b, G_x and G_y, limb by limb
  function P256(): Domain {
    Domain(
      Modulus([0xffffffff, 0xffffffff, 0xffffffff, 0x00000000, 0x00000000, 0x00000000, 0x00000001, 0xffffffff],
              [0x00000003, 0x00000000, 0xffffffff, 0xfffffffb, 0xfffffffe, 0xffffffff, 0xfffffffd, 0x00000004], 1),
      Modulus([0xfc632551, 0xf3b9cac2, 0xa7179e84, 0xbce6faad, 0xffffffff, 0xffffffff, 0x00000000, 0xffffffff],
              [0xbe79eea2, 0x83244c95, 0x49bd6fa6, 0x4699799c, 0x2b6bec59, 0x2845b239, 0xf3d95620, 0x66e12d94],
              0xee00bc4f),
      [0x29c4bddf, 0xd89cdf62, 0x78843090, 0xacf005cd, 0xf7212ed6, 0xe5a220ab, 0x04874834, 0xdc30061d],
      [0x18a9143c, 0x79e730d4, 0x5fedb601, 0x75ba95fc, 0x77622510, 0x79fb732b, 0xa53755c6, 0x18905f76],
      [0xce95560a, 0xddf25357, 0xba19e45c, 0x8b4ab8e4, 0xdd21f325, 0xd2e88688, 0x25885d85, 0x8571ff18])
  }

  // Eight limbs, Horner style.
  lemma ValEight(s: seq<Word>)
    requires |s| == 8
    ensures Val(s) == s[0] + B * (s[1] + B * (s[2] + B * (s[3] + B * (s[4] + B * (s[5] + B * (s[6] + B * s[7]))))))
  {
    ValCons(s);
    ValCons(s[1..]);
    ValCons(s[2..]);
    ValCons(s[3..]);
    ValCons(s[4..]);
    ValCons(s[5..]);
    ValCons(s[6..]);
    ValCons(s[7..]);
    assert s[1..][1..] == s[2..] && s[2..][1..] == s[3..] && s[3..][1..] == s[4..] && s[4..][1..] == s[5..];
    assert s[5..][1..] == s[6..] && s[6..][1..] == s[7..] && s[7..][1..] == [];
  }

  lemma TwoTo256()
    ensures Power(B, 8) == R256
  {
    PowerIsPow(B, 8);
  }

  lemma ModulusP()
    ensures P256().p.Valid() && P256().p.M() == P
  {
    ValEight(P256().p.m);
    ValEight(P256().p.r2);
    TwoTo256();
    DivModUnique(R256 * R256, P,
                 0x100000000fffffffffffffffefffffffefffffffeffffffff0000000000000003,
                 0x4fffffffdfffffffffffffffefffffffbffffffff0000000000000003);
    DivModUnique(P + 1, B, 0xffffffff000000010000000000000000000000010000000000000000, 0);
  }

  lemma ModulusN()
    ensures P256().n.Valid() && P256().n.M() == N
  {
    ValEight(P256().n.m);
    ValEight(P256().n.r2);
    TwoTo256();
    DivModUnique(R256 * R256, N,
                 0x100000000fffffffffffffffeffffffff43190552df1a6c21012ffd85eedf9bfe,
                 0x66e12d94f3d956202845b2392b6bec594699799c49bd6fa683244c95be79eea2);
    DivModUnique(0xee00bc4f * N + 1, B, 0xee00bc4e11ff43b1ee00bc4effffffffc19e8bb25cb6d7ab834a4884ede0f036, 0);
  }

  // v is d * 2^256 mod p
  lemma HeldAs(d: int, v: int, k: int)
    requires 0 <= d < P && 0 <= v < P && d * R256 == P * k + v
    ensures NegInverse(P, 1) && Dec(v, P, 1) == d
  {
    ModulusP();
    TwoTo256();
    DivModUnique(d * R256, P, k, v);
    ModSmall(v, P);
    ModSmall(d, P);
    DecOfEnc(d, v, P, 1);
  }

  lemma CoefficientB()
    ensures P256().Valid() && P256().C().p == P && P256().C().n == N && P256().C().b == B0
  {
    ModulusP();
    ModulusN();
    ValEight(P256().b);
    ValEight(P256().gx);
    ValEight(P256().gy);
    HeldAs(B0, 0xdc30061d04874834e5a220abf7212ed6acf005cd78843090d89cdf6229c4bddf,
           0x5ac635d90500c9c05e26513ccfbe0e38d6b4c3ac78843090d89cdf6229c4bddf);
  }

  lemma Generator()
    ensures P256().Valid() && G(P256()) == Affine(GX, GY) && OnCurve(P256().C(), G(P256()))
  {
    CoefficientB();
    ValEight(P256().gx);
    ValEight(P256().gy);
    HeldAs(GX, 0x18905f76a53755c679fb732b7762251075ba95fc5fedb60179e730d418a9143c,
           0x6b17d1f34c44143ad9e9292cf14955e48e63aa385fedb60179e730d418a9143c);
    HeldAs(GY, 0x8571ff1825885d85d2e88688dd21f3258b4ab8e4ba19e45cddf25357ce95560a,
           0x4fe342e34dfdc27e8d026ae5bb14467d59e00eeeba19e45cddf25357ce95560a);
    ModShift(GY * GY, GX * GX * GX - 3 * GX + B0,
             -(0x12bdd1ad23dfc833dccf5f6141d6bb4a1f365dc1430b0e600b52dd851938d2d6 * R256
               + 0x933106a72efbf035fdaf43963b37fd5456e90c6581a8fb7a0d8a46a3629f0458), P);
  }

  // With p and n prime, addition associative and n * Q = 0 on the curve, the
  // constants are usable: n is 1 mod 4, b is not 0, 2^256 <= 2n, G is finite
  // and on the curve.
  lemma P256IsUsable()
    ensures P256().Valid()
    ensures IsGroup(P256().C()) ==> Usable(P256())
  {
    hide IsGroup;
    Generator();
    CoefficientB();
    ModulusN();
    TwoTo256();
    ModSmall(B0, P);
    if IsGroup(P256().C()) {
      GroupPrimes(P256().C());
    }
  }

  lemma GroupPrimes(c: Params)
    requires IsGroup(c)
    ensures IsPrime(c.p) && c.p > 3 && IsPrime(c.n)
  {
  }
}
