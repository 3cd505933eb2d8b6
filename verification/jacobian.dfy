/** The Jacobian coordinate formulas as programs over residues, and what they
    mean: (x:y:z) stands for (x/z^2, y/z^3), and for infinity when z is 0. */
module Jacobian {
  import opened Curve
  import opened Numbers

  // y^2 = x^3 - 3 x z^4 + b z^6
  ghost predicate OnJacobian(c: Params, X: int, Y: int, Z: int)
    requires c.p > 3
  {
    (Y * Y) % c.p == JacobianRhs(c.b, X, Z) % c.p
  }

  function JacobianRhs(b: int, X: int, Z: int): int {
    X * (X * X) - 3 * (X * Quad(Z)) + b * (Quad(Z) * (Z * Z))
  }

  function Quad(z: int): int { (z * z) * (z * z) }

  function Cube(z: int): int { z * (z * z) }

  ghost function ToAffine(c: Params, X: int, Y: int, Z: int): Point
    requires IsPrime(c.p)
  {
    if Z % c.p == 0 then Zero
    else
      var i := Inv(Z, c.p);
      Affine((X * (i * i)) % c.p, (Y * Cube(i)) % c.p)
  }

  // X = x Z^2 and Y = y Z^3
  ghost predicate Scaled(p: int, X: int, Y: int, Z: int, x: int, y: int)
    requires p > 0
  {
    X % p == (x * (Z * Z)) % p && Y % p == (y * Cube(Z)) % p
  }

  // i^2 Z^2 = 1 and i^3 Z^3 = 1
  lemma InverseScales(p: int, Z: int, i: int)
    requires p > 1 && (Z * i) % p == 1
    ensures ((i * i) * (Z * Z)) % p == 1 && (Cube(i) * Cube(Z)) % p == 1
  {
    ModSmall(1, p);
    CongMul(Z * i, 1, Z * i, 1, p);
    assert (i * i) * (Z * Z) == (Z * i) * (Z * i) by { MulSwap(i, i, Z, Z); }
    CongMul(Z * i, 1, (i * i) * (Z * Z), 1, p);
    assert Cube(i) * Cube(Z) == (i * Z) * ((i * i) * (Z * Z)) by { MulSwap(i, i * i, Z, Z * Z); }
  }

  // The affine coordinates are the ones that scale to (X, Y).
  lemma ToAffineScaled(c: Params, X: int, Y: int, Z: int)
    requires IsPrime(c.p) && Z % c.p != 0
    ensures var P := ToAffine(c, X, Y, Z);
            P.Affine? && 0 <= P.x < c.p && 0 <= P.y < c.p && Scaled(c.p, X, Y, Z, P.x, P.y)
  {
    var p, i := c.p, Inv(Z, c.p);
    InverseScales(p, Z, i);
    Unscale(p, X, i * i, Z * Z);
    Unscale(p, Y, Cube(i), Cube(Z));
  }

  lemma Unscale(p: int, X: int, u: int, v: int)
    requires p > 1 && (u * v) % p == 1
    ensures X % p == (((X * u) % p) * v) % p
  {
    ModSmall(1, p);
    ModMul(X * u, v, p);
    MulAssoc(X, u, v);
    CongMul(X, X, u * v, 1, p);
  }

  lemma ScaledToAffine(c: Params, X: int, Y: int, Z: int, x: int, y: int)
    requires IsPrime(c.p) && Z % c.p != 0 && 0 <= x < c.p && 0 <= y < c.p
    requires Scaled(c.p, X, Y, Z, x, y)
    ensures ToAffine(c, X, Y, Z) == Affine(x, y)
  {
    var p, i := c.p, Inv(Z, c.p);
    InverseScales(p, Z, i);
    Rescale(p, X, x, Z * Z, i * i);
    Rescale(p, Y, y, Cube(Z), Cube(i));
  }

  lemma Rescale(p: int, X: int, x: int, v: int, u: int)
    requires p > 1 && (u * v) % p == 1 && X % p == (x * v) % p && 0 <= x < p
    ensures (X * u) % p == x
  {
    ModSmall(1, p);
    CongMul(X, x * v, u, u, p);
    assert (x * v) * u == x * (u * v);
    CongMul(x, x, u * v, 1, p);
    ModSmall(x, p);
  }

  // The Jacobian equation is the affine one, scaled by z^6.
  lemma ScaledEquation(x: int, y: int, b: int, Z: int)
    ensures (y * Cube(Z)) * (y * Cube(Z)) == (y * y) * (Quad(Z) * (Z * Z))
    ensures JacobianRhs(b, x * (Z * Z), Z) == (x * x * x - 3 * x + b) * (Quad(Z) * (Z * Z))
  {
    var q := Z * Z;
    assert Cube(Z) * Cube(Z) == Quad(Z) * q;
    assert (x * q) * ((x * q) * (x * q)) == (x * x * x) * (q * q * q);
    assert (x * q) * (q * q) == x * (q * q * q);
  }

  lemma JacobianRhsCong(b: int, X: int, X': int, Z: int, p: int)
    requires p > 0 && X % p == X' % p
    ensures JacobianRhs(b, X, Z) % p == JacobianRhs(b, X', Z) % p
  {
    hide Quad;
    var q, w := Quad(Z), b * (Quad(Z) * (Z * Z));
    CongMul(X, X', X, X', p);
    CongMul(X, X', X * X, X' * X', p);
    CongMul(X, X', q, q, p);
    CongMul(3, 3, X * q, X' * q, p);
    CongSub(X * (X * X), X' * (X' * X'), 3 * (X * q), 3 * (X' * q), p);
    CongAdd(X * (X * X) - 3 * (X * q), X' * (X' * X') - 3 * (X' * q), w, w, p);
  }

  // A finite point is on the Jacobian curve exactly when its affine form is
  // on the affine one.
  lemma OnJacobianIff(c: Params, X: int, Y: int, Z: int, x: int, y: int)
    requires IsPrime(c.p) && c.p > 3 && Z % c.p != 0
    requires Scaled(c.p, X, Y, Z, x, y)
    ensures OnJacobian(c, X, Y, Z) <==> (y * y) % c.p == Rhs(c, x) % c.p
  {
    hide Quad;
    hide Cube;
    hide JacobianRhs;
    var p, w := c.p, Quad(Z) * (Z * Z);
    CongMul(Y, y * Cube(Z), Y, y * Cube(Z), p);
    JacobianRhsCong(c.b, X, x * (Z * Z), Z, p);
    ScaledEquation(x, y, c.b, Z);
    SixthPowerNonzero(p, Z);
    EqualUpTo(p, w, y * y, Rhs(c, x));
  }

  lemma EqualUpTo(p: int, w: int, a: int, b: int)
    requires IsPrime(p) && w % p != 0
    ensures (a * w) % p == (b * w) % p <==> a % p == b % p
  {
    if a % p == b % p { CongMul(a, b, w, w, p); }
    if (a * w) % p == (b * w) % p { Cancel(w, a, b, p); }
  }

  lemma SixthPowerNonzero(p: int, Z: int)
    requires IsPrime(p) && Z % p != 0
    ensures (Quad(Z) * (Z * Z)) % p != 0 && Cube(Z) % p != 0 && (Z * Z) % p != 0 && Quad(Z) % p != 0
  {
    var q := Z * Z;
    if q % p == 0 { Euclid(Z, Z, p); }
    if Quad(Z) % p == 0 { Euclid(q, q, p); }
    if (Quad(Z) * q) % p == 0 { Euclid(Quad(Z), q, p); }
    if Cube(Z) % p == 0 { Euclid(Z, q, p); }
  }

  // ------------------------------------------------------------- doubling

  // Formula 6 of [CMO98] as the code runs it, on residues.
  ghost function DoubleProgram(p: int, x: int, y: int, z: int): (int, int, int)
    requires p > 0
  {
    var zz := FMul(z, z, p);
    var m0 := FMul(FAdd(x, zz, p), FSub(x, zz, p), p);
    var m := FAdd(FAdd(m0, m0, p), m0, p);
    var yy := FMul(y, y, p);
    var u2 := FAdd(yy, yy, p);
    var s2 := FMul(x, u2, p);
    var s := FAdd(s2, s2, p);
    var u4 := FMul(u2, u2, p);
    var u := FAdd(u4, u4, p);
    var x3 := FSub(FSub(FMul(m, m, p), s, p), s, p);
    var yz := FMul(y, z, p);
    var z3 := FAdd(yz, yz, p);
    var y3 := FSub(FMul(FSub(s, x3, p), m, p), u, p);
    (x3, y3, z3)
  }

  // What the program computes, as integer polynomials modulo p.
  lemma DoubleLift(p: int, X: int, Y: int, Z: int) returns (m: int, s: int, u: int)
    requires p > 0
    ensures m % p == (3 * ((X + Z * Z) * (X - Z * Z))) % p
    ensures s % p == (4 * (X * (Y * Y))) % p && u % p == (8 * ((Y * Y) * (Y * Y))) % p
    ensures var (x3, y3, z3) := DoubleProgram(p, X, Y, Z);
            && x3 % p == (m * m - 2 * s) % p
            && z3 % p == (2 * (Y * Z)) % p
            && y3 % p == (m * (s - x3) - u) % p
  {
    hide FMul, FAdd, FSub;
    var zz := FMul(Z, Z, p);
    LiftMul(Z, Z, Z, Z, p);
    LiftAdd(X, X, zz, Z * Z, p);
    LiftSub(X, X, zz, Z * Z, p);
    var m0 := FMul(FAdd(X, zz, p), FSub(X, zz, p), p);
    var d := (X + Z * Z) * (X - Z * Z);
    LiftMul(FAdd(X, zz, p), X + Z * Z, FSub(X, zz, p), X - Z * Z, p);
    LiftAdd(m0, d, m0, d, p);
    LiftAdd(FAdd(m0, m0, p), d + d, m0, d, p);
    m := FAdd(FAdd(m0, m0, p), m0, p);
    var yy, e := FMul(Y, Y, p), Y * Y;
    LiftMul(Y, Y, Y, Y, p);
    LiftAdd(yy, e, yy, e, p);
    var u2 := FAdd(yy, yy, p);
    var s2 := FMul(X, u2, p);
    LiftMul(X, X, u2, e + e, p);
    LiftAdd(s2, X * (e + e), s2, X * (e + e), p);
    s := FAdd(s2, s2, p);
    assert X * (e + e) + X * (e + e) == 4 * (X * e);
    LiftMul(u2, e + e, u2, e + e, p);
    var u4, f := FMul(u2, u2, p), (e + e) * (e + e);
    LiftAdd(u4, f, u4, f, p);
    u := FAdd(u4, u4, p);
    assert f == 4 * (e * e);
    DoubleLiftEnd(p, m, s, u, Y, Z);
  }

  lemma DoubleLiftEnd(p: int, m: int, s: int, u: int, Y: int, Z: int)
    requires p > 0
    ensures var x3 := FSub(FSub(FMul(m, m, p), s, p), s, p);
            var yz := FMul(Y, Z, p);
            && x3 % p == (m * m - 2 * s) % p
            && FAdd(yz, yz, p) % p == (2 * (Y * Z)) % p
            && FSub(FMul(FSub(s, x3, p), m, p), u, p) % p == (m * (s - x3) - u) % p
  {
    hide FMul, FAdd, FSub;
    var mm := FMul(m, m, p);
    LiftMul(m, m, m, m, p);
    LiftSub(mm, m * m, s, s, p);
    LiftSub(FSub(mm, s, p), m * m - s, s, s, p);
    var x3 := FSub(FSub(mm, s, p), s, p);
    var yz := FMul(Y, Z, p);
    LiftMul(Y, Y, Z, Z, p);
    LiftAdd(yz, Y * Z, yz, Y * Z, p);
    LiftSub(s, s, x3, x3, p);
    var t := FMul(FSub(s, x3, p), m, p);
    LiftMul(FSub(s, x3, p), s - x3, m, m, p);
    assert (s - x3) * m == m * (s - x3);
    LiftSub(t, m * (s - x3), u, u, p);
  }

  // The shape both formulas end in: with the slope scaled to r = l W, the
  // result is the third point of the line, scaled by W.
  lemma Assemble(c: Params, l: int, x1: int, y1: int, x2: int, W: int,
                 r: int, v: int, h: int, g: int, X3: int, Y3: int)
    requires c.p > 3
    requires r % c.p == (l * W) % c.p && v % c.p == (x1 * (W * W)) % c.p
    requires h % c.p == ((x1 + x2) * (W * W)) % c.p && g % c.p == (y1 * Cube(W)) % c.p
    requires X3 % c.p == (r * r - h) % c.p && Y3 % c.p == (r * (v - X3) - g) % c.p
    ensures var T := Third(c, l, x1, y1, x2); Scaled(c.p, X3, Y3, W, T.x, T.y)
  {
    hide Cube;
    var p, x3, q := c.p, Third(c, l, x1, y1, x2).x, W * W;
    CongMul(r, l * W, r, l * W, p);
    CongSub(r * r, (l * W) * (l * W), h, (x1 + x2) * q, p);
    assert (l * W) * (l * W) == (l * l) * q by { MulSwap(l, W, l, W); }
    assert (l * l) * q - (x1 + x2) * q == (l * l - x1 - x2) * q;
    ModMul(l * l - x1 - x2, q, p);
    AssembleY(p, l, x1, y1, W, r, v, g, X3, x3, Y3);
  }

  lemma AssembleY(p: int, l: int, x1: int, y1: int, W: int, r: int, v: int, g: int, X3: int, x3: int, Y3: int)
    requires p > 0
    requires r % p == (l * W) % p && v % p == (x1 * (W * W)) % p
    requires g % p == (y1 * Cube(W)) % p && X3 % p == (x3 * (W * W)) % p
    requires Y3 % p == (r * (v - X3) - g) % p
    ensures Y3 % p == (((l * (x1 - x3) - y1) % p) * Cube(W)) % p
  {
    var q, w := W * W, Cube(W);
    CongSub(v, x1 * q, X3, x3 * q, p);
    assert x1 * q - x3 * q == (x1 - x3) * q;
    CongMul(r, l * W, v - X3, (x1 - x3) * q, p);
    assert (l * W) * ((x1 - x3) * q) == (l * (x1 - x3)) * w by { MulSwap(l, W, x1 - x3, q); }
    CongSub(r * (v - X3), (l * (x1 - x3)) * w, g, y1 * w, p);
    var t := l * (x1 - x3);
    assert t * w - y1 * w == (t - y1) * w;
    ModMul(t - y1, w, p);
  }

  // Doubling away from z = 0 and y = 0: the scaled slope is m, and W = 2yz.
  lemma DoubleCore(p: int, X: int, Y: int, Z: int, x: int, y: int, l: int, m: int, s: int, u: int, W: int)
    requires p > 0 && Scaled(p, X, Y, Z, x, y)
    requires (l * (2 * y)) % p == (3 * x * x - 3) % p
    requires m % p == (3 * ((X + Z * Z) * (X - Z * Z))) % p
    requires s % p == (4 * (X * (Y * Y))) % p && u % p == (8 * ((Y * Y) * (Y * Y))) % p
    requires W % p == (2 * (Y * Z)) % p
    ensures W % p == ((2 * y) * Quad(Z)) % p
    ensures m % p == (l * W) % p && s % p == (x * (W * W)) % p && u % p == (y * Cube(W)) % p
  {
    var W' := DoubleScale(p, Y, Z, y, W);
    DoubleSlope(p, X, Z, x, y, l, m, W, W');
    DoubleS(p, X, Y, Z, x, y, s, W, W');
    DoubleU(p, Y, Z, y, u, W, W');
  }

  lemma DoubleScale(p: int, Y: int, Z: int, y: int, W: int) returns (W': int)
    requires p > 0 && Y % p == (y * Cube(Z)) % p && W % p == (2 * (Y * Z)) % p
    ensures W' == (2 * y) * Quad(Z) && W % p == W' % p
  {
    W' := (2 * y) * Quad(Z);
    hide Cube, Quad;
    var t := Cube(Z);
    CongMul(Y, y * t, Z, Z, p);
    CongMul(2, 2, Y * Z, (y * t) * Z, p);
    CubeTimes(Z);
    MulAssoc(y, t, Z);
    MulAssoc(2, y, Quad(Z));
  }

  lemma CubeTimes(z: int)
    ensures Cube(z) * z == Quad(z)
  {
  }

  lemma DoubleSlope(p: int, X: int, Z: int, x: int, y: int, l: int, m: int, W: int, W': int)
    requires p > 0 && X % p == (x * (Z * Z)) % p && (l * (2 * y)) % p == (3 * x * x - 3) % p
    requires m % p == (3 * ((X + Z * Z) * (X - Z * Z))) % p
    requires W' == (2 * y) * Quad(Z) && W % p == W' % p
    ensures m % p == (l * W) % p
  {
    var q := Z * Z;
    CongAdd(X, x * q, q, q, p);
    CongSub(X, x * q, q, q, p);
    CongMul(X + q, x * q + q, X - q, x * q - q, p);
    CongMul(3, 3, (X + q) * (X - q), (x * q + q) * (x * q - q), p);
    SlopeIdentity(x, q);
    CongMul(l * (2 * y), 3 * x * x - 3, q * q, q * q, p);
    MulAssoc(l, 2 * y, q * q);
    CongMul(l, l, W, W', p);
  }

  lemma SlopeIdentity(x: int, q: int)
    ensures 3 * ((x * q + q) * (x * q - q)) == (3 * x * x - 3) * (q * q)
  {
    assert (x * q + q) * (x * q - q) == (x * q) * (x * q) - q * q;
    assert (x * q) * (x * q) == (x * x) * (q * q) by { MulSwap(x, q, x, q); }
  }

  lemma DoubleS(p: int, X: int, Y: int, Z: int, x: int, y: int, s: int, W: int, W': int)
    requires p > 0 && Scaled(p, X, Y, Z, x, y) && s % p == (4 * (X * (Y * Y))) % p
    requires W' == (2 * y) * Quad(Z) && W % p == W' % p
    ensures s % p == (x * (W * W)) % p
  {
    var q, Y' := Z * Z, y * Cube(Z);
    CongMul(Y, Y', Y, Y', p);
    CongMul(X, x * q, Y * Y, Y' * Y', p);
    CongMul(4, 4, X * (Y * Y), (x * q) * (Y' * Y'), p);
    assert Cube(Z) * Cube(Z) == q * (q * q);
    assert Y' * Y' == (y * y) * (q * (q * q)) by { MulSwap(y, Cube(Z), y, Cube(Z)); }
    CongMul(W, W', W, W', p);
    CongMul(x, x, W * W, W' * W', p);
    FourSquares(x, y, q);
  }

  lemma FourSquares(x: int, y: int, q: int)
    ensures 4 * ((x * q) * ((y * y) * (q * (q * q)))) == x * (((2 * y) * (q * q)) * ((2 * y) * (q * q)))
  {
    var t := q * q;
    assert ((2 * y) * t) * ((2 * y) * t) == ((2 * y) * (2 * y)) * (t * t) by { MulSwap(2 * y, t, 2 * y, t); }
    assert (2 * y) * (2 * y) == 4 * (y * y);
    assert q * (q * t) == t * t;
    assert (x * q) * ((y * y) * (q * t)) == x * ((y * y) * (t * t));
  }

  lemma DoubleU(p: int, Y: int, Z: int, y: int, u: int, W: int, W': int)
    requires p > 0 && Y % p == (y * Cube(Z)) % p && u % p == (8 * ((Y * Y) * (Y * Y))) % p
    requires W' == (2 * y) * Quad(Z) && W % p == W' % p
    ensures u % p == (y * Cube(W)) % p
  {
    var q, Y' := Z * Z, y * Cube(Z);
    CongMul(Y, Y', Y, Y', p);
    CongMul(Y * Y, Y' * Y', Y * Y, Y' * Y', p);
    CongMul(8, 8, (Y * Y) * (Y * Y), (Y' * Y') * (Y' * Y'), p);
    assert Cube(Z) * Cube(Z) == q * (q * q);
    assert Y' * Y' == (y * y) * (q * (q * q)) by { MulSwap(y, Cube(Z), y, Cube(Z)); }
    CongMul(W, W', W, W', p);
    CongMul(W, W', W * W, W' * W', p);
    CongMul(y, y, Cube(W), Cube(W'), p);
    EightFourths(y, q);
  }

  lemma EightFourths(y: int, q: int)
    ensures var a := (y * y) * (q * (q * q));
            8 * (a * a) == y * Cube((2 * y) * (q * q))
  {
    var t := q * q;
    var w := (2 * y) * t;
    assert w * w == (4 * (y * y)) * (t * t) by { MulSwap(2 * y, t, 2 * y, t); assert (2 * y) * (2 * y) == 4 * (y * y); }
    assert w * (w * w) == (8 * (y * (y * y))) * (t * (t * t)) by {
      MulSwap(2 * y, t, 4 * (y * y), t * t);
      assert (2 * y) * (4 * (y * y)) == 8 * (y * (y * y));
    }
    var k := q * t;
    assert k * k == t * (t * t);
    assert ((y * y) * k) * ((y * y) * k) == ((y * y) * (y * y)) * (k * k) by { MulSwap(y * y, k, y * y, k); }
    assert y * ((8 * (y * (y * y))) * (k * k)) == 8 * (((y * y) * (y * y)) * (k * k));
  }

  // At z = 0 the equation is y^2 = x^3.
  lemma AtInfinity(c: Params, X: int, Y: int, Z: int)
    requires c.p > 3 && Z % c.p == 0
    ensures OnJacobian(c, X, Y, Z) <==> (Y * Y) % c.p == Cube(X) % c.p
  {
    var p := c.p;
    ModSmall(0, p);
    CongMul(Z, 0, Z, 0, p);
    CongMul(Z * Z, 0, Z * Z, 0, p);
    CongMul(Quad(Z), 0, Z * Z, 0, p);
    CongMul(c.b, c.b, Quad(Z) * (Z * Z), 0, p);
    CongMul(X, X, Quad(Z), 0, p);
    CongMul(3, 3, X * Quad(Z), X * 0, p);
    CongSub(Cube(X), Cube(X), 3 * (X * Quad(Z)), 0, p);
    CongAdd(Cube(X) - 3 * (X * Quad(Z)), Cube(X), c.b * (Quad(Z) * (Z * Z)), 0, p);
  }

  // Doubling infinity: with y^2 = x^3 the result is (x^4 : x^6 : 0).
  lemma DoubleInfinity(p: int, X: int, Y: int, Z: int, m: int, s: int, u: int, X3: int, Y3: int)
    requires p > 0 && Z % p == 0 && (Y * Y) % p == Cube(X) % p
    requires m % p == (3 * ((X + Z * Z) * (X - Z * Z))) % p
    requires s % p == (4 * (X * (Y * Y))) % p && u % p == (8 * ((Y * Y) * (Y * Y))) % p
    requires X3 % p == (m * m - 2 * s) % p && Y3 % p == (m * (s - X3) - u) % p
    ensures (Y3 * Y3) % p == Cube(X3) % p
  {
    var q := X * X;
    InfinityM(p, X, Z, m);
    InfinitySU(p, X, Y * Y, s, u);
    InfinityX(p, q, m, s, X3);
    InfinityY(p, q, m, s, u, X3, Y3);
    SquareIsCube(p, q * q, q * (q * q), X3, Y3);
  }

  lemma InfinityM(p: int, X: int, Z: int, m: int)
    requires p > 0 && Z % p == 0 && m % p == (3 * ((X + Z * Z) * (X - Z * Z))) % p
    ensures m % p == (3 * (X * X)) % p
  {
    ModSmall(0, p);
    CongMul(Z, 0, Z, 0, p);
    var d := Z * Z;
    CongAdd(X, X, d, 0, p);
    CongSub(X, X, d, 0, p);
    CongMul(X + d, X, X - d, X, p);
    CongMul(3, 3, (X + d) * (X - d), X * X, p);
  }

  lemma InfinitySU(p: int, X: int, e: int, s: int, u: int)
    requires p > 0 && e % p == Cube(X) % p && s % p == (4 * (X * e)) % p && u % p == (8 * (e * e)) % p
    ensures var q := X * X; s % p == (4 * (q * q)) % p && u % p == (8 * (q * (q * q))) % p
  {
    var k, q := Cube(X), X * X;
    CongMul(X, X, e, k, p);
    CongMul(4, 4, X * e, X * k, p);
    CongMul(e, k, e, k, p);
    CongMul(8, 8, e * e, k * k, p);
    assert X * (X * q) == q * q;
    assert (X * q) * (X * q) == q * (q * q) by { MulSwap(X, q, X, q); }
  }

  lemma InfinityX(p: int, q: int, m: int, s: int, X3: int)
    requires p > 0 && m % p == (3 * q) % p && s % p == (4 * (q * q)) % p
    requires X3 % p == (m * m - 2 * s) % p
    ensures X3 % p == (q * q) % p
  {
    var t := q * q;
    CongMul(m, 3 * q, m, 3 * q, p);
    CongMul(2, 2, s, 4 * t, p);
    CongSub(m * m, (3 * q) * (3 * q), 2 * s, 8 * t, p);
    assert (3 * q) * (3 * q) - 8 * t == t;
  }

  lemma InfinityY(p: int, q: int, m: int, s: int, u: int, X3: int, Y3: int)
    requires p > 0 && m % p == (3 * q) % p && s % p == (4 * (q * q)) % p && u % p == (8 * (q * (q * q))) % p
    requires X3 % p == (q * q) % p && Y3 % p == (m * (s - X3) - u) % p
    ensures Y3 % p == (q * (q * q)) % p
  {
    var t := q * q;
    CongSub(s, 4 * t, X3, t, p);
    CongMul(m, 3 * q, s - X3, 3 * t, p);
    assert (3 * q) * (3 * t) == 9 * (q * t);
    CongSub(m * (s - X3), 9 * (q * t), u, 8 * (q * t), p);
  }

  lemma SquareIsCube(p: int, t: int, w: int, X3: int, Y3: int)
    requires p > 0 && X3 % p == t % p && (Y3 % p == w % p || Y3 % p == (-w) % p) && w * w == Cube(t)
    ensures (Y3 * Y3) % p == Cube(X3) % p
  {
    CongMul(X3, t, X3, t, p);
    CongMul(X3, t, X3 * X3, t * t, p);
    if Y3 % p == w % p { CongMul(Y3, w, Y3, w, p); } else { CongMul(Y3, -w, Y3, -w, p); }
    assert (-w) * (-w) == w * w;
  }

  // Doubling a point of order two: y = 0 gives (m^2 : -m^3 : 0).
  lemma DoubleOrderTwo(p: int, X: int, Y: int, m: int, s: int, u: int, X3: int, Y3: int)
    requires p > 0 && Y % p == 0
    requires s % p == (4 * (X * (Y * Y))) % p && u % p == (8 * ((Y * Y) * (Y * Y))) % p
    requires X3 % p == (m * m - 2 * s) % p && Y3 % p == (m * (s - X3) - u) % p
    ensures (Y3 * Y3) % p == Cube(X3) % p
  {
    var t := m * m;
    ModSmall(0, p);
    CongMul(Y, 0, Y, 0, p);
    CongMul(X, X, Y * Y, 0, p);
    CongMul(4, 4, X * (Y * Y), 0, p);
    CongMul(Y * Y, 0, Y * Y, 0, p);
    CongMul(8, 8, (Y * Y) * (Y * Y), 0, p);
    CongMul(2, 2, s, 0, p);
    CongSub(t, t, 2 * s, 0, p);
    CongSub(s, 0, X3, t, p);
    CongMul(m, m, s - X3, -t, p);
    CongSub(m * (s - X3), m * (-t), u, 0, p);
    assert m * (-t) == -(m * t);
    assert (m * t) * (m * t) == Cube(t) by { MulSwap(m, t, m, t); }
    SquareIsCube(p, t, m * t, X3, Y3);
  }

  // Doubling is complete: it keeps the Jacobian equation and doubles the
  // affine point, at infinity and at points of order two as well.
  lemma DoubleMeaning(c: Params, X: int, Y: int, Z: int)
    requires IsPrime(c.p) && c.p > 3 && OnJacobian(c, X, Y, Z)
    ensures var (x3, y3, z3) := DoubleProgram(c.p, X, Y, Z);
            && OnJacobian(c, x3, y3, z3)
            && ToAffine(c, x3, y3, z3) == Add(c, ToAffine(c, X, Y, Z), ToAffine(c, X, Y, Z))
  {
    hide DoubleProgram, OnJacobian, ToAffine, Add;
    var p := c.p;
    var (x3, y3, z3) := DoubleProgram(p, X, Y, Z);
    var m, s, u := DoubleLift(p, X, Y, Z);
    if Z % p == 0 || Y % p == 0 {
      DoubleToInfinity(c, X, Y, Z, m, s, u, x3, y3, z3);
    } else {
      DoubleFinite(c, X, Y, Z, m, s, u, x3, y3, z3);
    }
  }

  lemma DoubleToInfinity(c: Params, X: int, Y: int, Z: int, m: int, s: int, u: int, x3: int, y3: int, z3: int)
    requires IsPrime(c.p) && c.p > 3 && OnJacobian(c, X, Y, Z) && (Z % c.p == 0 || Y % c.p == 0)
    requires m % c.p == (3 * ((X + Z * Z) * (X - Z * Z))) % c.p
    requires s % c.p == (4 * (X * (Y * Y))) % c.p && u % c.p == (8 * ((Y * Y) * (Y * Y))) % c.p
    requires x3 % c.p == (m * m - 2 * s) % c.p && y3 % c.p == (m * (s - x3) - u) % c.p
    requires z3 % c.p == (2 * (Y * Z)) % c.p
    ensures OnJacobian(c, x3, y3, z3)
    ensures ToAffine(c, x3, y3, z3) == Add(c, ToAffine(c, X, Y, Z), ToAffine(c, X, Y, Z)) == Zero
  {
    hide OnJacobian;
    var p := c.p;
    ModSmall(0, p);
    if Y % p == 0 { CongMul(Y, 0, Z, Z, p); } else { CongMul(Y, Y, Z, 0, p); }
    CongMul(2, 2, Y * Z, 0, p);
    AtInfinity(c, x3, y3, z3);
    if Z % p == 0 {
      AtInfinity(c, X, Y, Z);
      DoubleInfinity(p, X, Y, Z, m, s, u, x3, y3);
    } else {
      DoubleOrderTwo(p, X, Y, m, s, u, x3, y3);
      ToAffineScaled(c, X, Y, Z);
      var P := ToAffine(c, X, Y, Z);
      SixthPowerNonzero(p, Z);
      Euclid(P.y, Cube(Z), p);
      ModSmall(P.y, p);
      assert P.y + P.y == 0;
    }
  }

  lemma NotOrderTwo(p: int, y: int, Y: int, Z: int)
    requires IsPrime(p) && p > 3 && Y % p != 0 && Y % p == (y * Cube(Z)) % p
    ensures (2 * y) % p != 0 && (y + y) % p != 0
  {
    ModSmall(0, p);
    ModSmall(2, p);
    if (2 * y) % p == 0 {
      Euclid(2, y, p);
      CongMul(y, 0, Cube(Z), Cube(Z), p);
    }
  }

  lemma DoubleWNonzero(p: int, y: int, Z: int, W: int)
    requires IsPrime(p) && Z % p != 0 && (2 * y) % p != 0 && W % p == ((2 * y) * Quad(Z)) % p
    ensures W % p != 0
  {
    SixthPowerNonzero(p, Z);
    if W % p == 0 { Euclid(2 * y, Quad(Z), p); }
  }

  lemma DoubleFinite(c: Params, X: int, Y: int, Z: int, m: int, s: int, u: int, x3: int, y3: int, z3: int)
    requires IsPrime(c.p) && c.p > 3 && OnJacobian(c, X, Y, Z) && Z % c.p != 0 && Y % c.p != 0
    requires m % c.p == (3 * ((X + Z * Z) * (X - Z * Z))) % c.p
    requires s % c.p == (4 * (X * (Y * Y))) % c.p && u % c.p == (8 * ((Y * Y) * (Y * Y))) % c.p
    requires x3 % c.p == (m * m - 2 * s) % c.p && y3 % c.p == (m * (s - x3) - u) % c.p
    requires z3 % c.p == (2 * (Y * Z)) % c.p
    ensures OnJacobian(c, x3, y3, z3)
    ensures ToAffine(c, x3, y3, z3) == Add(c, ToAffine(c, X, Y, Z), ToAffine(c, X, Y, Z))
  {
    hide OnJacobian, ToAffine, Cube, Quad, Third, Tangent, Rhs;
    var P := ToAffine(c, X, Y, Z);
    ToAffineScaled(c, X, Y, Z);
    OnJacobianIff(c, X, Y, Z, P.x, P.y);
    DoubleTangent(c, P, X, Y, Z, m, s, u, z3);
    Assemble(c, Tangent(c, P), P.x, P.y, P.x, z3, m, s, 2 * s, u, x3, y3);
    SumReached(c, P, P, x3, y3, z3);
  }

  // The program's terms, measured by the slope of the tangent.
  lemma DoubleTangent(c: Params, P: Point, X: int, Y: int, Z: int, m: int, s: int, u: int, z3: int)
    requires IsPrime(c.p) && c.p > 3 && Z % c.p != 0 && Y % c.p != 0
    requires P.Affine? && Scaled(c.p, X, Y, Z, P.x, P.y)
    requires m % c.p == (3 * ((X + Z * Z) * (X - Z * Z))) % c.p
    requires s % c.p == (4 * (X * (Y * Y))) % c.p && u % c.p == (8 * ((Y * Y) * (Y * Y))) % c.p
    requires z3 % c.p == (2 * (Y * Z)) % c.p
    ensures m % c.p == (Tangent(c, P) * z3) % c.p && s % c.p == (P.x * (z3 * z3)) % c.p
    ensures (2 * s) % c.p == ((P.x + P.x) * (z3 * z3)) % c.p && u % c.p == (P.y * Cube(z3)) % c.p
    ensures z3 % c.p != 0 && Add(c, P, P) == Third(c, Tangent(c, P), P.x, P.y, P.x)
  {
    hide Cube, Quad, Third;
    var p, l := c.p, Tangent(c, P);
    NotOrderTwo(p, P.y, Y, Z);
    SlopeWorks(c, 3 * P.x * P.x - 3, 2 * P.y);
    DoubleCore(p, X, Y, Z, P.x, P.y, l, m, s, u, z3);
    DoubleWNonzero(p, P.y, Z, z3);
    TwiceScaled(p, P.x, z3 * z3, s);
  }

  lemma TwiceScaled(p: int, x: int, w: int, s: int)
    requires p > 0 && s % p == (x * w) % p
    ensures (2 * s) % p == ((x + x) * w) % p
  {
    CongMul(2, 2, s, x * w, p);
    assert 2 * (x * w) == (x + x) * w;
  }

  // A triple scaled from the sum of two curve points stands for that sum.
  lemma SumReached(c: Params, P: Point, Q: Point, x3: int, y3: int, z3: int)
    requires IsPrime(c.p) && c.p > 3 && OnCurve(c, P) && OnCurve(c, Q) && z3 % c.p != 0
    requires Add(c, P, Q).Affine? && Scaled(c.p, x3, y3, z3, Add(c, P, Q).x, Add(c, P, Q).y)
    ensures OnJacobian(c, x3, y3, z3) && ToAffine(c, x3, y3, z3) == Add(c, P, Q)
  {
    hide OnJacobian, ToAffine, Scaled, Add;
    var T := Add(c, P, Q);
    AddOnCurve(c, P, Q);
    ScaledToAffine(c, x3, y3, z3, T.x, T.y);
    OnJacobianIff(c, x3, y3, z3, T.x, T.y);
  }

  // ------------------------------------------------------------- addition

  // Formula 5 of [CMO98] with z2 = 1, as the code runs it, on residues.
  ghost function AddProgram(p: int, x1: int, y1: int, z1: int, x2: int, y2: int): (int, int, int)
    requires p > 0
  {
    var zz := FMul(z1, z1, p);
    var zzz := FMul(zz, z1, p);
    var u2 := FMul(zz, x2, p);
    var s2 := FMul(zzz, y2, p);
    var h := FSub(u2, x1, p);
    var r := FSub(s2, y1, p);
    var z3 := FMul(z1, h, p);
    var hh := FMul(h, h, p);
    var hhh := FMul(hh, h, p);
    var v := FMul(hh, x1, p);
    var x3 := FSub(FSub(FSub(FMul(r, r, p), v, p), v, p), hhh, p);
    var y3 := FSub(FMul(FSub(v, x3, p), r, p), FMul(hhh, y1, p), p);
    (x3, y3, z3)
  }

  // What the program computes, as integer polynomials modulo p.
  lemma AddLift(p: int, X: int, Y: int, Z: int, x2: int, y2: int) returns (h: int, r: int, v: int, k: int)
    requires p > 0
    ensures h % p == ((Z * Z) * x2 - X) % p && r % p == (Cube(Z) * y2 - Y) % p
    ensures v % p == ((h * h) * X) % p && k % p == Cube(h) % p
    ensures var (x3, y3, z3) := AddProgram(p, X, Y, Z, x2, y2);
            && x3 % p == (r * r - 2 * v - k) % p
            && z3 % p == (Z * h) % p
            && y3 % p == (r * (v - x3) - k * Y) % p
  {
    hide FMul, FAdd, FSub;
    var zz := FMul(Z, Z, p);
    LiftMul(Z, Z, Z, Z, p);
    var zzz := FMul(zz, Z, p);
    LiftMul(zz, Z * Z, Z, Z, p);
    assert (Z * Z) * Z == Cube(Z);
    LiftMul(zz, Z * Z, x2, x2, p);
    LiftMul(zzz, Cube(Z), y2, y2, p);
    LiftSub(FMul(zz, x2, p), (Z * Z) * x2, X, X, p);
    LiftSub(FMul(zzz, y2, p), Cube(Z) * y2, Y, Y, p);
    h := FSub(FMul(zz, x2, p), X, p);
    r := FSub(FMul(zzz, y2, p), Y, p);
    LiftMul(Z, Z, h, h, p);
    LiftMul(h, h, h, h, p);
    var hh := FMul(h, h, p);
    LiftMul(hh, h * h, h, h, p);
    assert (h * h) * h == Cube(h);
    LiftMul(hh, h * h, X, X, p);
    v := FMul(hh, X, p);
    k := FMul(hh, h, p);
    AddLiftEnd(p, r, v, k, Y);
  }

  lemma AddLiftEnd(p: int, r: int, v: int, k: int, Y: int)
    requires p > 0
    ensures var x3 := FSub(FSub(FSub(FMul(r, r, p), v, p), v, p), k, p);
            && x3 % p == (r * r - 2 * v - k) % p
            && FSub(FMul(FSub(v, x3, p), r, p), FMul(k, Y, p), p) % p == (r * (v - x3) - k * Y) % p
  {
    hide FMul, FAdd, FSub;
    var rr := FMul(r, r, p);
    LiftMul(r, r, r, r, p);
    LiftSub(rr, r * r, v, v, p);
    LiftSub(FSub(rr, v, p), r * r - v, v, v, p);
    var d := FSub(FSub(rr, v, p), v, p);
    LiftSub(d, r * r - v - v, k, k, p);
    var x3 := FSub(d, k, p);
    LiftSub(v, v, x3, x3, p);
    LiftMul(FSub(v, x3, p), v - x3, r, r, p);
    assert (v - x3) * r == r * (v - x3);
    LiftMul(k, k, Y, Y, p);
    LiftSub(FMul(FSub(v, x3, p), r, p), r * (v - x3), FMul(k, Y, p), k * Y, p);
  }

  // With affine (x, y) for (X:Y:Z): h = (x2 - x) Z^2 and r = l W, W = Z h.
  lemma AddCore(p: int, X: int, Y: int, Z: int, x: int, y: int, x2: int, y2: int, l: int,
                h: int, r: int, v: int, k: int, W: int)
    requires p > 0 && Scaled(p, X, Y, Z, x, y) && (l * (x2 - x)) % p == (y2 - y) % p
    requires h % p == ((Z * Z) * x2 - X) % p && r % p == (Cube(Z) * y2 - Y) % p
    requires v % p == ((h * h) * X) % p && k % p == Cube(h) % p && W % p == (Z * h) % p
    ensures h % p == ((x2 - x) * (Z * Z)) % p
    ensures r % p == (l * W) % p && v % p == (x * (W * W)) % p
    ensures k % p == ((x2 - x) * (W * W)) % p && (k * Y) % p == (y * Cube(W)) % p
  {
    AddH(p, X, Z, x, x2, h);
    AddR(p, Y, Z, y, y2, x2 - x, l, h, r, W);
    AddVK(p, X, Y, Z, x, y, x2 - x, h, v, k, W);
  }

  lemma AddH(p: int, X: int, Z: int, x: int, x2: int, h: int)
    requires p > 0 && X % p == (x * (Z * Z)) % p && h % p == ((Z * Z) * x2 - X) % p
    ensures h % p == ((x2 - x) * (Z * Z)) % p
  {
    var q := Z * Z;
    CongSub(q * x2, q * x2, X, x * q, p);
    assert q * x2 - x * q == (x2 - x) * q;
  }

  lemma AddR(p: int, Y: int, Z: int, y: int, y2: int, e: int, l: int, h: int, r: int, W: int)
    requires p > 0 && Y % p == (y * Cube(Z)) % p && r % p == (Cube(Z) * y2 - Y) % p
    requires (l * e) % p == (y2 - y) % p && h % p == (e * (Z * Z)) % p && W % p == (Z * h) % p
    ensures r % p == (l * W) % p
  {
    var q, t := Z * Z, Cube(Z);
    CongSub(t * y2, t * y2, Y, y * t, p);
    assert t * y2 - y * t == (y2 - y) * t;
    CongMul(l * e, y2 - y, t, t, p);
    CongMul(Z, Z, h, e * q, p);
    CongMul(l, l, W, Z * (e * q), p);
    assert Z * (e * q) == e * (Z * q);
    MulAssoc(l, e, Z * q);
  }

  lemma AddVK(p: int, X: int, Y: int, Z: int, x: int, y: int, e: int, h: int, v: int, k: int, W: int)
    requires p > 0 && Scaled(p, X, Y, Z, x, y) && h % p == (e * (Z * Z)) % p
    requires v % p == ((h * h) * X) % p && k % p == Cube(h) % p && W % p == (Z * h) % p
    ensures v % p == (x * (W * W)) % p
    ensures k % p == (e * (W * W)) % p && (k * Y) % p == (y * Cube(W)) % p
  {
    var q, g := Z * Z, h * h;
    CongMul(W, Z * h, W, Z * h, p);
    assert (Z * h) * (Z * h) == q * g by { MulSwap(Z, h, Z, h); }
    CongMul(g, g, X, x * q, p);
    assert g * (x * q) == x * (q * g);
    CongMul(x, x, W * W, q * g, p);
    CongMul(h, e * q, g, g, p);
    assert (e * q) * g == e * (q * g);
    CongMul(e, e, W * W, q * g, p);
    AddKY(p, Y, Z, y, h, k, W);
  }

  lemma AddKY(p: int, Y: int, Z: int, y: int, h: int, k: int, W: int)
    requires p > 0 && Y % p == (y * Cube(Z)) % p && k % p == Cube(h) % p && W % p == (Z * h) % p
    ensures (k * Y) % p == (y * Cube(W)) % p
  {
    var t, w := Cube(Z), Cube(h);
    CongMul(k, w, Y, y * t, p);
    assert w * (y * t) == y * (t * w);
    CongMul(W, Z * h, W, Z * h, p);
    CongMul(W, Z * h, W * W, (Z * h) * (Z * h), p);
    CongMul(y, y, Cube(W), Cube(Z * h), p);
    assert (Z * h) * (Z * h) == (Z * Z) * (h * h) by { MulSwap(Z, h, Z, h); }
    assert Cube(Z * h) == t * w by { MulSwap(Z, h, Z * Z, h * h); }
  }

  lemma NotInfinity(c: Params, X: int, Y: int, Z: int)
    requires IsPrime(c.p) && ToAffine(c, X, Y, Z).Affine?
    ensures Z % c.p != 0
  {
  }

  // Mixed addition away from 0 and from +-Q adds the affine points.
  lemma AddMeaning(c: Params, X: int, Y: int, Z: int, Q: Point)
    requires IsPrime(c.p) && c.p > 3 && OnJacobian(c, X, Y, Z)
    requires Q.Affine? && OnCurve(c, Q)
    requires var P := ToAffine(c, X, Y, Z); P.Affine? && P.x != Q.x
    ensures var (x3, y3, z3) := AddProgram(c.p, X, Y, Z, Q.x, Q.y);
            && OnJacobian(c, x3, y3, z3)
            && ToAffine(c, x3, y3, z3) == Add(c, ToAffine(c, X, Y, Z), Q)
            && ToAffine(c, x3, y3, z3).Affine?
  {
    hide AddProgram, OnJacobian, ToAffine, Cube, Third;
    var p, P := c.p, ToAffine(c, X, Y, Z);
    NotInfinity(c, X, Y, Z);
    var (x3, y3, z3) := AddProgram(p, X, Y, Z, Q.x, Q.y);
    var h, r, v, k := AddLift(p, X, Y, Z, Q.x, Q.y);
    ToAffineScaled(c, X, Y, Z);
    OnJacobianIff(c, X, Y, Z, P.x, P.y);
    ChordSlope(c, P, Q);
    var l := Chord(c, P, Q);
    AddCore(p, X, Y, Z, P.x, P.y, Q.x, Q.y, l, h, r, v, k, z3);
    AddTotal(p, P.x, Q.x, z3, v, k);
    Assemble(c, l, P.x, P.y, Q.x, z3, r, v, 2 * v + k, k * Y, x3, y3);
    AddWNonzero(p, Q.x - P.x, Z, h, z3);
    SumReached(c, P, Q, x3, y3, z3);
  }

  lemma AddTotal(p: int, x: int, x2: int, W: int, v: int, k: int)
    requires p > 0 && v % p == (x * (W * W)) % p && k % p == ((x2 - x) * (W * W)) % p
    ensures (2 * v + k) % p == ((x + x2) * (W * W)) % p
  {
    var w := W * W;
    CongMul(2, 2, v, x * w, p);
    CongAdd(2 * v, 2 * (x * w), k, (x2 - x) * w, p);
    assert 2 * (x * w) + (x2 - x) * w == (x + x2) * w;
  }

  lemma AddWNonzero(p: int, e: int, Z: int, h: int, W: int)
    requires IsPrime(p) && Z % p != 0 && e % p != 0
    requires h % p == (e * (Z * Z)) % p && W % p == (Z * h) % p
    ensures W % p != 0
  {
    SixthPowerNonzero(p, Z);
    if h % p == 0 { Euclid(e, Z * Z, p); }
    if W % p == 0 { Euclid(Z, h, p); }
  }
}
