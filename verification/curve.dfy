/** The affine short Weierstrass curve y^2 = x^3 - 3x + b over the residues
    modulo a prime, with its chord-and-tangent addition. This is the reference
    the Jacobian formulas and the ladder are measured against. */
module Curve {
  import opened Numbers

  // The field size p, the coefficient b and the group order n.
  datatype Params = Params(p: int, b: int, n: int)

  // (x, y) affine, or the point at infinity.
  datatype Point = Zero | Affine(x: int, y: int)

  // x^3 - 3x + b
  ghost function Rhs(c: Params, x: int): int {
    x * x * x - 3 * x + c.b
  }

  ghost predicate OnCurve(c: Params, P: Point)
    requires c.p > 3
  {
    P.Affine? ==> 0 <= P.x < c.p && 0 <= P.y < c.p && (P.y * P.y) % c.p == Rhs(c, P.x) % c.p
  }

  // The inverse of a non-zero residue, and 0 for 0.
  ghost function Inv(a: int, p: int): (r: int)
    requires IsPrime(p)
    ensures 0 <= r < p
    ensures a % p != 0 ==> (a * r) % p == 1
    ensures a % p == 0 ==> r == 0
  {
    if a % p == 0 then 0
    else
      DivMod(a, p);
      ModMul(a, Inverse(a % p, p), p);
      Inverse(a % p, p)
  }

  // Fermat: the power p - 2 inverts, and maps 0 to 0.
  lemma InvIsPower(a: int, p: int)
    requires IsPrime(p) && p > 2
    ensures Pow(a, p - 2) % p == Inv(a, p)
  {
    var i := Inv(a, p);
    ModSmall(i, p);
    if a % p == 0 {
      ModSmall(0, p);
      CongMul(a, 0, Pow(a, p - 3), Pow(a, p - 3), p);
    } else {
      Fermat(a, p);
      ModSmall(1, p);
      assert Pow(a, p - 1) == a * Pow(a, p - 2);
      Cancel(a, Pow(a, p - 2), i, p);
    }
  }

  // The point on the line of slope l through P and a point with abscissa x2.
  ghost function Third(c: Params, l: int, x1: int, y1: int, x2: int): (R: Point)
    requires c.p > 3
    ensures R.Affine? && 0 <= R.x < c.p && 0 <= R.y < c.p
  {
    var x3 := (l * l - x1 - x2) % c.p;
    Affine(x3, (l * (x1 - x3) - y1) % c.p)
  }

  ghost function Tangent(c: Params, P: Point): int
    requires IsPrime(c.p) && P.Affine?
  {
    (3 * P.x * P.x - 3) * Inv(2 * P.y, c.p)
  }

  ghost function Chord(c: Params, P: Point, Q: Point): int
    requires IsPrime(c.p) && P.Affine? && Q.Affine?
  {
    (Q.y - P.y) * Inv(Q.x - P.x, c.p)
  }

  ghost function Add(c: Params, P: Point, Q: Point): Point
    requires IsPrime(c.p) && c.p > 3
  {
    if P.Zero? then Q
    else if Q.Zero? then P
    else if P.x != Q.x then Third(c, Chord(c, P, Q), P.x, P.y, Q.x)
    else if (P.y + Q.y) % c.p == 0 then Zero
    else Third(c, Tangent(c, P), P.x, P.y, P.x)
  }

  ghost function Neg(c: Params, P: Point): Point
    requires c.p > 3
  {
    if P.Zero? then Zero else Affine(P.x, (-P.y) % c.p)
  }

  // ------------------------------------------------------------- closure

  // A line through P meets the curve again where the cubic's root sum says:
  // with w = y1^2 = Rhs(x1), the value at x3 factors through x3 - x1.
  lemma LineIdentity(l: int, x1: int, y1: int, x3: int)
    ensures (l * (x1 - x3) - y1) * (l * (x1 - x3) - y1) - y1 * y1
         == (x3 - x1) * (2 * l * y1 + l * l * (x3 - x1))
    ensures (x3 * x3 * x3 - 3 * x3) - (x1 * x1 * x1 - 3 * x1)
         == (x3 - x1) * (x3 * x3 + x1 * x3 + x1 * x1 - 3)
  {
    var d := x3 - x1;
    assert l * (x1 - x3) == -(l * d);
    var t := l * d;
    assert (-t - y1) * (-t - y1) - y1 * y1 == t * t + 2 * (t * y1);
    assert t * t == d * (l * l * d);
    assert t * y1 == d * (l * y1);
  }

  // What makes l the slope of the secant through x1 and x2 (or of the tangent
  // when x1 = x2), with the division by x2 - x1 already carried out.
  ghost predicate Secant(c: Params, l: int, x1: int, y1: int, x2: int)
    requires c.p > 0
  {
    (2 * l * y1) % c.p == (x1 * x1 + x1 * x2 + x2 * x2 - 3 - l * l * (x2 - x1)) % c.p
  }

  lemma ThirdOnCurve(c: Params, l: int, x1: int, y1: int, x2: int)
    requires c.p > 3 && Secant(c, l, x1, y1, x2)
    requires (y1 * y1) % c.p == Rhs(c, x1) % c.p
    ensures OnCurve(c, Third(c, l, x1, y1, x2))
  {
    var p := c.p;
    var x3 := Third(c, l, x1, y1, x2).x;
    var y := l * (x1 - x3) - y1;
    ModMod(l * l - x1 - x2, p);
    Vanish(y1 * y1, Rhs(c, x1), p);
    Vanish(2 * l * y1, x1 * x1 + x1 * x2 + x2 * x2 - 3 - l * l * (x2 - x1), p);
    Vanish(l * l - x1 - x2, x3, p);
    ThirdIdentity(l, x1, y1, x2, x3, c.b);
    Combination(y1 * y1 - Rhs(c, x1), x3 - x1,
                2 * l * y1 - (x1 * x1 + x1 * x2 + x2 * x2 - 3 - l * l * (x2 - x1)),
                x3 - x2, l * l - x1 - x2 - x3, p);
    Vanish(y * y, Rhs(c, x3), p);
    ModMul(y, y, p);
  }

  lemma Vanish(a: int, b: int, p: int)
    requires p > 0
    ensures a % p == b % p <==> (a - b) % p == 0
  {
    ModSmall(0, p);
    if a % p == b % p { CongSub(a, b, b, b, p); }
    if (a - b) % p == 0 { CongAdd(a - b, 0, b, b, p); }
  }

  lemma Combination(a: int, u: int, e: int, v: int, d: int, p: int)
    requires p > 0 && a % p == 0 && e % p == 0 && d % p == 0
    ensures (a + u * (e + v * d)) % p == 0
  {
    ModSmall(0, p);
    CongMul(v, v, d, 0, p);
    CongAdd(e, 0, v * d, 0, p);
    CongMul(u, u, e + v * d, 0, p);
    CongAdd(a, 0, u * (e + v * d), 0, p);
  }

  // The defect of the third point is a combination of the three defects.
  lemma ThirdIdentity(l: int, x1: int, y1: int, x2: int, x3: int, b: int)
    ensures (l * (x1 - x3) - y1) * (l * (x1 - x3) - y1) - (x3 * x3 * x3 - 3 * x3 + b)
         == (y1 * y1 - (x1 * x1 * x1 - 3 * x1 + b))
            + (x3 - x1) * ((2 * l * y1 - (x1 * x1 + x1 * x2 + x2 * x2 - 3 - l * l * (x2 - x1)))
                           + (x3 - x2) * (l * l - x1 - x2 - x3))
  {
    LineIdentity(l, x1, y1, x3);
    BracketIdentity(l * l, x1, x2, x3);
    Split(x3 - x1, 2 * l * y1 + l * l * (x3 - x1), x3 * x3 + x1 * x3 + x1 * x1 - 3);
  }

  lemma Split(d: int, u: int, v: int)
    ensures d * u - d * v == d * (u - v)
  {
  }

  lemma BracketIdentity(q: int, x1: int, x2: int, x3: int)
    ensures (x1 * x1 + x1 * x2 + x2 * x2 - 3 - q * (x2 - x1)) + q * (x3 - x1)
            - (x3 * x3 + x1 * x3 + x1 * x1 - 3)
         == (x3 - x2) * (q - x1 - x2 - x3)
  {
  }

  // Multiplying an inverse back.
  lemma SlopeWorks(c: Params, num: int, den: int)
    requires IsPrime(c.p) && den % c.p != 0
    ensures ((num * Inv(den, c.p)) * den) % c.p == num % c.p
  {
    var p := c.p;
    var i := Inv(den, p);
    assert (num * i) * den == num * (den * i);
    ModSmall(1, p);
    CongMul(num, num, den * i, 1, p);
  }

  lemma TangentIsSecant(c: Params, P: Point)
    requires IsPrime(c.p) && c.p > 3 && P.Affine? && (2 * P.y) % c.p != 0
    ensures Secant(c, Tangent(c, P), P.x, P.y, P.x)
  {
    SlopeWorks(c, 3 * P.x * P.x - 3, 2 * P.y);
    TangentShape(Tangent(c, P), P.x, P.y);
  }

  lemma TangentShape(l: int, x: int, y: int)
    ensures 2 * l * y == l * (2 * y)
    ensures 3 * x * x - 3 == x * x + x * x + x * x - 3 - l * l * (x - x)
  {
  }

  lemma ChordSlope(c: Params, P: Point, Q: Point)
    requires IsPrime(c.p) && c.p > 3 && P.Affine? && Q.Affine? && P.x != Q.x
    requires OnCurve(c, P) && OnCurve(c, Q)
    ensures (Q.x - P.x) % c.p != 0
    ensures (Chord(c, P, Q) * (Q.x - P.x)) % c.p == (Q.y - P.y) % c.p
  {
    Distinct(P.x, Q.x, c.p);
    SlopeWorks(c, Q.y - P.y, Q.x - P.x);
  }

  lemma Distinct(a: int, b: int, p: int)
    requires p > 0 && 0 <= a < p && 0 <= b < p && a != b
    ensures (b - a) % p != 0
  {
    if (b - a) % p == 0 {
      ModSmall(0, p);
      CongAdd(b - a, 0, a, a, p);
      ModSmall(a, p);
      ModSmall(b, p);
    }
  }

  lemma ChordIsSecant(c: Params, P: Point, Q: Point)
    requires IsPrime(c.p) && c.p > 3 && P.Affine? && Q.Affine? && P.x != Q.x
    requires OnCurve(c, P) && OnCurve(c, Q)
    ensures Secant(c, Chord(c, P, Q), P.x, P.y, Q.x)
  {
    ChordSlope(c, P, Q);
    CongSub(Q.y * Q.y, Rhs(c, Q.x), P.y * P.y, Rhs(c, P.x), c.p);
    CubeDifference(P.x, Q.x);
    var g := P.x * P.x + P.x * Q.x + Q.x * Q.x - 3;
    ChordAlgebra(c.p, Chord(c, P, Q), Q.x - P.x, P.y, Q.y, g);
  }

  // From l * e = dy and dy * sy = e * g, cancelling e.
  lemma ChordAlgebra(p: int, l: int, e: int, y1: int, y2: int, g: int)
    requires IsPrime(p) && e % p != 0
    requires (l * e) % p == (y2 - y1) % p && (y2 * y2 - y1 * y1) % p == (e * g) % p
    ensures (2 * l * y1) % p == (g - l * l * e) % p
  {
    var dy, sy := y2 - y1, y1 + y2;
    SquareDifference(y1, y2);
    CongMul(l * e, dy, sy, sy, p);
    assert (l * e) * sy == e * (l * sy);
    Cancel(e, l * sy, g, p);
    CongMul(l, l, l * e, dy, p);
    MulAssoc(l, l, e);
    CongSub(l * sy, g, l * dy, l * l * e, p);
    Split(l, sy, dy);
    TangentShape(l, 0, y1);
  }

  lemma SquareDifference(y1: int, y2: int)
    ensures y2 * y2 - y1 * y1 == (y2 - y1) * (y1 + y2)
  {
  }

  lemma CubeDifference(x1: int, x2: int)
    ensures (x2 * x2 * x2 - 3 * x2) - (x1 * x1 * x1 - 3 * x1)
         == (x2 - x1) * (x1 * x1 + x1 * x2 + x2 * x2 - 3)
  {
  }

  // Points sharing an abscissa are equal or opposite.
  lemma SameAbscissa(c: Params, P: Point, Q: Point)
    requires IsPrime(c.p) && c.p > 3 && P.Affine? && Q.Affine? && P.x == Q.x
    requires OnCurve(c, P) && OnCurve(c, Q) && (P.y + Q.y) % c.p != 0
    ensures P == Q && (2 * P.y) % c.p != 0
  {
    var p := c.p;
    CongSub(P.y * P.y, Rhs(c, P.x), Q.y * Q.y, Rhs(c, P.x), p);
    ModSmall(0, p);
    assert P.y * P.y - Q.y * Q.y == (P.y + Q.y) * (P.y - Q.y);
    Euclid(P.y + Q.y, P.y - Q.y, p);
    if P.y != Q.y { Distinct(Q.y, P.y, p); }
  }

  // The curve is closed under addition.
  lemma AddOnCurve(c: Params, P: Point, Q: Point)
    requires IsPrime(c.p) && c.p > 3 && OnCurve(c, P) && OnCurve(c, Q)
    ensures OnCurve(c, Add(c, P, Q))
  {
    if P.Affine? && Q.Affine? {
      if P.x != Q.x {
        ChordIsSecant(c, P, Q);
        ThirdOnCurve(c, Chord(c, P, Q), P.x, P.y, Q.x);
      } else if (P.y + Q.y) % c.p != 0 {
        SameAbscissa(c, P, Q);
        TangentIsSecant(c, P);
        ThirdOnCurve(c, Tangent(c, P), P.x, P.y, P.x);
      }
    }
  }

  // The chord through two points has one slope, from either end.
  lemma ChordBothWays(c: Params, P: Point, Q: Point)
    requires IsPrime(c.p) && P.Affine? && Q.Affine?
    requires 0 <= P.x < c.p && 0 <= Q.x < c.p && P.x != Q.x
    ensures Chord(c, P, Q) % c.p == Chord(c, Q, P) % c.p
    ensures (Chord(c, P, Q) * (Q.x - P.x)) % c.p == (Q.y - P.y) % c.p
  {
    hide Chord;
    var p, l, m, e := c.p, Chord(c, P, Q), Chord(c, Q, P), Q.x - P.x;
    Slope(c, P, Q);
    Slope(c, Q, P);
    CongSub(0, 0, m * (P.x - Q.x), P.y - Q.y, p);
    assert 0 - m * (P.x - Q.x) == e * m && l * e == e * l;
    Cancel(e, l, m, p);
  }

  lemma Slope(c: Params, P: Point, Q: Point)
    requires IsPrime(c.p) && P.Affine? && Q.Affine?
    requires 0 <= P.x < c.p && 0 <= Q.x < c.p && P.x != Q.x
    ensures (Q.x - P.x) % c.p != 0 && (Chord(c, P, Q) * (Q.x - P.x)) % c.p == (Q.y - P.y) % c.p
  {
    var p, e := c.p, Q.x - P.x;
    if e % p == 0 { Distinct(P.x, Q.x, p); }
    ModSmall(1, p);
    CongMul(Inv(e, p) * e, 1, Q.y - P.y, Q.y - P.y, p);
    assert e * Inv(e, p) == Inv(e, p) * e;
    assert (Q.y - P.y) * Inv(e, p) * e == (Inv(e, p) * e) * (Q.y - P.y);
  }

  lemma ThirdBothWays(c: Params, l: int, m: int, P: Point, Q: Point)
    requires c.p > 3 && P.Affine? && Q.Affine? && l % c.p == m % c.p
    requires (l * (Q.x - P.x)) % c.p == (Q.y - P.y) % c.p
    ensures Third(c, l, P.x, P.y, Q.x) == Third(c, m, Q.x, Q.y, P.x)
  {
    var p := c.p;
    CongMul(l, m, l, m, p);
    CongSub(l * l, m * m, P.x + Q.x, P.x + Q.x, p);
    SameOrdinate(p, l, m, P.x, P.y, Q.x, Q.y, (l * l - P.x - Q.x) % p);
  }

  lemma SameOrdinate(p: int, l: int, m: int, x1: int, y1: int, x2: int, y2: int, x3: int)
    requires p > 0 && l % p == m % p && (l * (x2 - x1)) % p == (y2 - y1) % p
    ensures (l * (x1 - x3) - y1) % p == (m * (x2 - x3) - y2) % p
  {
    var u, v, w := l * (x2 - x3), l * (x2 - x1), m * (x2 - x3);
    CongMul(l, m, x2 - x3, x2 - x3, p);
    CongSub(u, w, v, y2 - y1, p);
    CongSub(u - v, w - (y2 - y1), y1, y1, p);
    assert u - v == l * (x1 - x3) by { Differences(l, x2 - x3, x2 - x1); }
  }

  lemma Differences(l: int, a: int, b: int)
    ensures l * a - l * b == l * (a - b)
  {
  }

  lemma AddCommutes(c: Params, P: Point, Q: Point)
    requires IsPrime(c.p) && c.p > 3 && OnCurve(c, P) && OnCurve(c, Q)
    ensures Add(c, P, Q) == Add(c, Q, P)
  {
    hide Third, Chord;
    if P.Affine? && Q.Affine? {
      if P.x != Q.x {
        ChordBothWays(c, P, Q);
        ThirdBothWays(c, Chord(c, P, Q), Chord(c, Q, P), P, Q);
      } else if (P.y + Q.y) % c.p != 0 {
        SameAbscissa(c, P, Q);
      }
    }
  }
}
