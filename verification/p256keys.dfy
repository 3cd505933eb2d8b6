/** What compressed keys do on P-256 itself: the two ways in which decompression
    falls short both occur. */
module P256Keys {
  import opened Compression
  import opened Constants
  import opened Curve
  import opened CurveGroup
  import opened EcdsaSpec
  import opened Montgomery
  import opened Numbers
  import Quadratic

  // GY is odd, but the number its limbs hold is even.
  lemma GeneratorParity()
    ensures GY % 2 == 1 && HeldParity(GY, P) == 0
  {
    TwoTo256();
    DivModUnique(GY * R256, P,
                 0x4fe342e34dfdc27e8d026ae5bb14467d59e00eeeba19e45cddf25357ce95560a,
                 0x8571ff1825885d85d2e88688dd21f3258b4ab8e4ba19e45cddf25357ce95560a);
  }

  // The standard generator does not survive compression and decompression.
  lemma GeneratorComesBackNegated(c: Params)
    requires P256().Valid() && c == P256().C() && Sound(c)
    ensures ValidKey(c, GX, GY)
    ensures Ordinate(c, GX, 3) == P - GY != GY
  {
    hide HeldParity, Ordinate;
    CoefficientB();
    ModulusP();
    Generator();
    GeneratorParity();
    RoundTripIff(c, 1, GX, GY, 3);
    DivModUnique(-GY, P, -1, P - GY);
  }

  // 1 - 3 + b is the negative of a square, so no square itself.
  lemma NoOrdinateAtOne(c: Params)
    requires c.p == P && c.b == B0 && Sound(c)
    ensures !Quadratic.IsSquare(Rhs(c, 1) % P, P)
  {
    var r := 0x21e84d97efba01a88bfdb73e85742d04d1083c3c64fe25606fc105c232599638;
    var k := 0x47db6cdeb32ecc0ef348a58279724b26a28f2a89d54b068da34c8da2d17f377;
    var a := B0 - 2;
    ModShift(r * r, -a, k, P);
    ModSmall(a, P);
    assert Quadratic.IsSquare(-a, P);
    DivModUnique(-a, P, -1, P - a);
    Quadratic.OppositeNonSquare(-a, P);
  }

  // 1 is no abscissa of the curve, yet a reduced number: decompression reports
  // success for it and writes coordinates that are no key.
  lemma NoKeyAtOne(c: Params, prefix: int)
    requires P256().Valid() && c == P256().C() && Sound(c)
    ensures 1 < c.p && !ValidKey(c, 1, Ordinate(c, 1, prefix))
    ensures forall y :: !ValidKey(c, 1, y)
  {
    CoefficientB();
    NoOrdinateAtOne(c);
    UncompressOnCurve(c, 1, prefix);
    forall y ensures !ValidKey(c, 1, y) {
      NoPoint(c, 1, y);
    }
  }

  lemma NoPoint(c: Params, x: int, y: int)
    requires Sound(c) && !Quadratic.IsSquare(Rhs(c, x) % c.p, c.p)
    ensures !ValidKey(c, x, y)
  {
    ModMod(Rhs(c, x), c.p);
  }
}
