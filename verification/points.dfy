/** The point operations of the P-256 code, in place on limb arrays. */
module Points {
  import opened Curve
  import opened CurveGroup
  import opened Bits
  import opened Jacobian
  import opened Ladder
  import opened Limbs
  import opened Montgomery
  import opened Numbers

  // The curve's read-only data: both moduli, and b and the base point in
  // Montgomery form.
  datatype Domain = Domain(p: Modulus, n: Modulus, b: seq<Word>, gx: seq<Word>, gy: seq<Word>) {

    ghost predicate Valid() {
      && p.Valid() && n.Valid()
      && p.M() > 3 && p.m[0] >= 2 && n.m[0] >= 2
      && |b| == 8 && |gx| == 8 && |gy| == 8
      && 0 <= Val(b) < p.M() && 0 <= Val(gx) < p.M() && 0 <= Val(gy) < p.M()
    }

    ghost function P(): (r: int)
      requires Valid()
      ensures r > 3
    {
      p.M()
    }

    ghost predicate E(a: array<Word>)
      reads a
    {
      p.Elem(a)
    }

    ghost function F(a: array<Word>): int
      requires Valid()
      reads a
    {
      p.F(a)
    }

    method MulP(z: array<Word>, x: array<Word>, y: array<Word>)
      requires Valid() && z.Length == 8 && E(x) && E(y)
      modifies z
      ensures E(z) && F(z) == FMul(old(F(x)), old(F(y)), P())
    {
      p.Mul(z, x, y);
    }

    method AddP(z: array<Word>, x: array<Word>, y: array<Word>)
      requires Valid() && z.Length == 8 && E(x) && E(y)
      modifies z
      ensures E(z) && F(z) == FAdd(old(F(x)), old(F(y)), P())
    {
      p.Add(z, x, y);
    }

    method SubP(z: array<Word>, x: array<Word>, y: array<Word>)
      requires Valid() && z.Length == 8 && E(x) && E(y)
      modifies z
      ensures E(z) && F(z) == FSub(old(F(x)), old(F(y)), P())
    {
      p.Sub(z, x, y);
    }

    // m = 3 * (x + z^2) * (x - z^2); s and u are scratch
    method DoubleM(m: array<Word>, s: array<Word>, u: array<Word>, x: array<Word>, z: array<Word>)
      requires Valid() && E(x) && E(z) && m.Length == 8 && s.Length == 8 && u.Length == 8
      requires m != s && m != u && s != u && m != x && s != x && u != x
      modifies m, s, u
      ensures E(m)
      ensures var zz := FMul(old(F(z)), old(F(z)), P());
              var m0 := FMul(FAdd(old(F(x)), zz, P()), FSub(old(F(x)), zz, P()), P());
              F(m) == FAdd(FAdd(m0, m0, P()), m0, P())
    {
      hide FMul, FAdd, FSub, E, F, P, Valid;
      MulP(s, z, z);
      AddP(m, x, s);
      SubP(u, x, s);
      MulP(s, m, u);
      AddP(m, s, s);
      AddP(m, m, s);
    }

    // s = 4 * x * y^2 and u = 8 * y^4
    method DoubleSU(s: array<Word>, u: array<Word>, x: array<Word>, y: array<Word>)
      requires Valid() && E(x) && E(y) && s.Length == 8 && u.Length == 8
      requires s != u && s != x && u != x && s != y && u != y
      modifies s, u
      ensures E(s) && E(u)
      ensures var yy := FMul(old(F(y)), old(F(y)), P());
              var u2 := FAdd(yy, yy, P());
              var s2 := FMul(old(F(x)), u2, P());
              var u4 := FMul(u2, u2, P());
              F(s) == FAdd(s2, s2, P()) && F(u) == FAdd(u4, u4, P())
    {
      hide FMul, FAdd, FSub, E, F, P, Valid;
      MulP(u, y, y);
      AddP(u, u, u);
      MulP(s, x, u);
      AddP(s, s, s);
      MulP(u, u, u);
      AddP(u, u, u);
    }

    // x3 = m^2 - 2 * s, z3 = 2 * y * z, y3 = m * (s - x3) - u
    method DoubleOut(x: array<Word>, y: array<Word>, z: array<Word>, m: array<Word>, s: array<Word>, u: array<Word>)
      requires Valid() && E(x) && E(y) && E(z) && E(m) && E(s) && E(u)
      requires x != y && x != z && y != z && x !in {m, s, u} && y !in {m, s, u} && z !in {m, s, u}
      requires x.Length == 8 && y.Length == 8 && z.Length == 8
      modifies x, y, z
      ensures E(x) && E(y) && E(z)
      ensures F(x) == FSub(FSub(FMul(old(F(m)), old(F(m)), P()), old(F(s)), P()), old(F(s)), P())
      ensures var yz := FMul(old(F(y)), old(F(z)), P()); F(z) == FAdd(yz, yz, P())
      ensures F(y) == FSub(FMul(FSub(old(F(s)), F(x), P()), old(F(m)), P()), old(F(u)), P())
    {
      hide FMul, FAdd, FSub, E, F, P, Valid;
      MulP(x, m, m);
      SubP(x, x, s);
      SubP(x, x, s);
      MulP(z, y, z);
      AddP(z, z, z);
      SubP(y, s, x);
      MulP(y, y, m);
      SubP(y, y, u);
    }

    // The curve the constants describe.
    ghost function C(): (c: Params)
      requires Valid()
      ensures c.p == P() > 3
    {
      Params(p.M(), Dec(Val(b), p.M(), p.ni), n.M())
    }

    // The constants as the affine arithmetic needs them: p prime, b not 0.
    ghost predicate Good() {
      Valid() && IsPrime(P()) && C().b % P() != 0
    }

    // (x:y:z) on the curve in Jacobian coordinates, and the point it stands for
    ghost predicate J(x: array<Word>, y: array<Word>, z: array<Word>)
      requires Valid()
      reads x, y, z
    {
      && x.Length == 8 && y.Length == 8 && z.Length == 8 && x != y && x != z && y != z
      && E(x) && E(y) && E(z) && OnJacobian(C(), F(x), F(y), F(z))
    }

    ghost function JPoint(x: array<Word>, y: array<Word>, z: array<Word>): Point
      requires Good()
      reads x, y, z
    {
      ToAffine(C(), F(x), F(y), F(z))
    }

    // (x, y) as an affine point, (0, 0) standing for infinity
    ghost function APoint(x: array<Word>, y: array<Word>): Point
      requires Valid()
      reads x, y
    {
      if F(x) == 0 && F(y) == 0 then Zero else Affine(F(x), F(y))
    }

    // (x, y) holds a finite point of the curve
    ghost predicate A(x: array<Word>, y: array<Word>)
      requires Valid()
      reads x, y
    {
      && x.Length == 8 && y.Length == 8 && x != y && E(x) && E(y)
      && APoint(x, y).Affine? && OnCurve(C(), APoint(x, y))
    }

    // (x:y:z) := 2 (x:y:z), for every point of the curve
    method PointDouble(x: array<Word>, y: array<Word>, z: array<Word>)
      requires Good() && J(x, y, z)
      modifies x, y, z
      ensures J(x, y, z) && JPoint(x, y, z) == Curve.Add(C(), old(JPoint(x, y, z)), old(JPoint(x, y, z)))
    {
      hide FMul, FAdd, FSub, E, F, P, Valid, C, OnJacobian, ToAffine, Curve.Add;
      ghost var X, Y, Z := F(x), F(y), F(z);
      var m := new Word[8];
      var s := new Word[8];
      var u := new Word[8];
      DoubleM(m, s, u, x, z);
      DoubleSU(s, u, x, y);
      DoubleOut(x, y, z, m, s, u);
      assert (F(x), F(y), F(z)) == DoubleProgram(P(), X, Y, Z);
      DoubleMeaning(C(), X, Y, Z);
    }

    // t1 = x2 z1^2 - x1 and t2 = y2 z1^3 - y1
    method AddHR(t1: array<Word>, t2: array<Word>, x1: array<Word>, y1: array<Word>, z1: array<Word>,
                 x2: array<Word>, y2: array<Word>)
      requires Valid() && E(x1) && E(y1) && E(z1) && E(x2) && E(y2) && t1.Length == 8 && t2.Length == 8
      requires t1 != t2 && t1 !in {x1, y1, z1, x2, y2} && t2 !in {x1, y1, z1, x2, y2}
      modifies t1, t2
      ensures E(t1) && E(t2)
      ensures var zz := FMul(old(F(z1)), old(F(z1)), P());
              && F(t1) == FSub(FMul(zz, old(F(x2)), P()), old(F(x1)), P())
              && F(t2) == FSub(FMul(FMul(zz, old(F(z1)), P()), old(F(y2)), P()), old(F(y1)), P())
    {
      hide FMul, FAdd, FSub, E, F, P, Valid;
      MulP(t1, z1, z1);
      MulP(t2, t1, z1);
      MulP(t1, t1, x2);
      MulP(t2, t2, y2);
      SubP(t1, t1, x1);
      SubP(t2, t2, y1);
    }

    // z3 = z1 * h, t1 = h^3, t3 = x1 * h^2
    method AddPowers(z1: array<Word>, t1: array<Word>, t3: array<Word>, x1: array<Word>)
      requires Valid() && E(z1) && E(t1) && E(x1) && t3.Length == 8 && z1.Length == 8 && t1.Length == 8
      requires z1 != t1 && z1 != t3 && z1 != x1 && t1 != t3 && t1 != x1 && t3 != x1
      modifies z1, t1, t3
      ensures E(z1) && E(t1) && E(t3)
      ensures var h := old(F(t1)); var hh := FMul(h, h, P());
              && F(z1) == FMul(old(F(z1)), h, P()) && F(t1) == FMul(hh, h, P())
              && F(t3) == FMul(hh, old(F(x1)), P())
    {
      hide FMul, FAdd, FSub, E, F, P, Valid;
      MulP(z1, z1, t1);
      MulP(t3, t1, t1);
      MulP(t1, t3, t1);
      MulP(t3, t3, x1);
    }

    // x3 = r^2 - 2 x1 h^2 - h^3, y3 = r * (x1 h^2 - x3) - y1 h^3
    method AddOut(x1: array<Word>, y1: array<Word>, t1: array<Word>, t2: array<Word>, t3: array<Word>)
      requires Valid() && E(x1) && E(y1) && E(t1) && E(t2) && E(t3)
      requires x1.Length == 8 && y1.Length == 8 && t1.Length == 8 && t3.Length == 8
      requires x1 != y1 && x1 !in {t1, t2, t3} && y1 !in {t1, t2, t3} && t1 != t2 && t1 != t3 && t2 != t3
      modifies x1, y1, t1, t3
      ensures E(x1) && E(y1)
      ensures var r, v, k := old(F(t2)), old(F(t3)), old(F(t1));
              && F(x1) == FSub(FSub(FSub(FMul(r, r, P()), v, P()), v, P()), k, P())
              && F(y1) == FSub(FMul(FSub(v, F(x1), P()), r, P()), FMul(k, old(F(y1)), P()), P())
    {
      hide FMul, FAdd, FSub, E, F, P, Valid;
      MulP(x1, t2, t2);
      SubP(x1, x1, t3);
      SubP(x1, x1, t3);
      SubP(x1, x1, t1);
      SubP(t3, t3, x1);
      MulP(t3, t3, t2);
      MulP(t1, t1, y1);
      SubP(y1, t3, t1);
    }

    // (x1:y1:z1) := (x1:y1:z1) + (x2, y2), neither 0 nor +-(x2, y2) on entry
    method PointAdd(x1: array<Word>, y1: array<Word>, z1: array<Word>, x2: array<Word>, y2: array<Word>)
      requires Good() && J(x1, y1, z1) && A(x2, y2)
      requires x2 !in {x1, y1, z1} && y2 !in {x1, y1, z1}
      requires JPoint(x1, y1, z1).Affine? && JPoint(x1, y1, z1).x != APoint(x2, y2).x
      modifies x1, y1, z1
      ensures J(x1, y1, z1) && JPoint(x1, y1, z1).Affine?
      ensures JPoint(x1, y1, z1) == Curve.Add(C(), old(JPoint(x1, y1, z1)), old(APoint(x2, y2)))
    {
      hide FMul, FAdd, FSub, E, F, P, Valid, C, OnJacobian, ToAffine, Curve.Add, OnCurve;
      ghost var X, Y, Z, Q := F(x1), F(y1), F(z1), APoint(x2, y2);
      var t1 := new Word[8];
      var t2 := new Word[8];
      var t3 := new Word[8];
      AddHR(t1, t2, x1, y1, z1, x2, y2);
      AddPowers(z1, t1, t3, x1);
      AddOut(x1, y1, t1, t2, t3);
      assert (F(x1), F(y1), F(z1)) == AddProgram(P(), X, Y, Z, Q.x, Q.y);
      AddMeaning(C(), X, Y, Z, Q);
    }

    // (x, y) := (x / z^2, y / z^3), and (0, 0) for z = 0
    method PointToAffine(x: array<Word>, y: array<Word>, z: array<Word>)
      requires Good() && J(x, y, z)
      modifies x, y, z
      ensures E(x) && E(y) && APoint(x, y) == old(JPoint(x, y, z)) && OnCurve(C(), APoint(x, y))
    {
      ghost var X, Y, Z := F(x), F(y), F(z);
      p.Inv(z, z);
      InvIsPower(Z, P());
      ghost var i := F(z);
      AffineRun(x, y, z);
      AffineMeaning(C(), X, Y, Z, i, F(x), F(y));
    }

    // x = x * z^2, y = y * z^3
    method AffineRun(x: array<Word>, y: array<Word>, z: array<Word>)
      requires Valid() && x.Length == 8 && y.Length == 8 && z.Length == 8 && x != y && x != z && y != z
      requires E(x) && E(y) && E(z)
      modifies x, y
      ensures E(x) && E(y)
      ensures var i := old(F(z)); var ii := FMul(i, i, P());
              F(x) == FMul(old(F(x)), ii, P()) && F(y) == FMul(old(F(y)), FMul(ii, i, P()), P())
    {
      hide FMul, FAdd, FSub, E, F, P, Valid;
      var t := new Word[8];
      MulP(t, z, z);
      MulP(x, x, t);
      MulP(t, t, z);
      MulP(y, y, t);
    }

    // lhs = y^2 and rhs = x^3 - 3x + b; 0 exactly for a finite curve point
    method PointCheck(x: array<Word>, y: array<Word>) returns (diff: nat)
      requires Good() && E(x) && E(y)
      ensures diff == 0 <==> OnCurve(C(), Affine(F(x), F(y)))
    {
      var lhs := new Word[8];
      var rhs := new Word[8];
      var bs := Load(b);
      assert F(bs) == C().b;
      CheckRun(lhs, rhs, x, y, bs);
      CheckMeaning(C(), F(x), F(y), F(lhs), F(rhs));
      diff := U256Diff(lhs, rhs);
      if F(lhs) == F(rhs) { DecInjective(Val(lhs[..]), Val(rhs[..]), P(), p.ni); }
    }

    method CheckRun(lhs: array<Word>, rhs: array<Word>, x: array<Word>, y: array<Word>, bs: array<Word>)
      requires Valid() && E(x) && E(y) && E(bs) && lhs.Length == 8 && rhs.Length == 8
      requires lhs != rhs && lhs !in {x, y, bs} && rhs !in {x, y, bs}
      modifies lhs, rhs
      ensures E(lhs) && E(rhs) && F(lhs) == FMul(F(y), F(y), P())
      ensures var xx := FMul(F(x), F(x), P()); var xxx := FMul(xx, F(x), P());
              F(rhs) == FAdd(FSub(FSub(FSub(xxx, F(x), P()), F(x), P()), F(x), P()), F(bs), P())
    {
      hide FMul, FAdd, FSub, E, F, P, Valid;
      MulP(lhs, y, y);
      MulP(rhs, x, x);
      MulP(rhs, rhs, x);
      SubP(rhs, rhs, x); // the original's loop of three subtractions
      SubP(rhs, rhs, x);
      SubP(rhs, rhs, x);
      AddP(rhs, rhs, bs);
    }

    // (x3, y3) := (x1, y1) + (x2, y2) for any two finite points
    method PointAddOrDoubleLeaky(x3: array<Word>, y3: array<Word>, x1: array<Word>, y1: array<Word>,
                                 x2: array<Word>, y2: array<Word>)
      requires Good() && A(x1, y1) && A(x2, y2) && x3.Length == 8 && y3.Length == 8 && x3 != y3
      requires x3 !in {x1, y1, x2, y2} && y3 !in {x1, y1, x2, y2}
      modifies x3, y3
      ensures E(x3) && E(y3)
      ensures APoint(x3, y3) == Curve.Add(C(), old(APoint(x1, y1)), old(APoint(x2, y2)))
    {
      ghost var S, T := APoint(x1, y1), APoint(x2, y2);
      var z3 := new Word[8];
      U256CMov(x3, x1, 1);
      U256CMov(y3, y1, 1);
      p.Set32(z3, 1);
      AffineIsJacobian(C(), S, F(z3));
      var diffX := U256Diff(x1, x2);
      var diffY := U256Diff(y1, y2);
      SameResidue(x1, x2);
      SameResidue(y1, y2);
      if diffX != 0 {
        PointAdd(x3, y3, z3, x2, y2);
        PointToAffine(x3, y3, z3);
      } else if diffY == 0 {
        PointDouble(x3, y3, z3);
        PointToAffine(x3, y3, z3);
      } else {
        OppositeSum(C(), S, T);
        p.Set32(x3, 0);
        p.Set32(y3, 0);
        ModSmall(0, P());
      }
    }

    // The hypotheses about the curve and the facts about n the code relies on.
    ghost predicate Standard() {
      && Good() && IsGroup(C()) && n.M() % 4 == 1 && 4 < n.M()
    }

    // py_use := sbit(bit) * (-1)^negate * P's ordinate
    method SelectOrdinate(pyUse: array<Word>, py: array<Word>, pyNeg: array<Word>, bit: Word, negate: Word)
      requires Valid() && E(py) && E(pyNeg) && pyUse.Length == 8 && bit <= 1 && negate <= 1
      requires pyUse != py && pyUse != pyNeg
      modifies pyUse
      ensures E(pyUse) && F(pyUse) == if bit == negate then F(pyNeg) else F(py)
    {
      U256CMov(pyUse, py, BitXor(bit, negate));
      U256CMov(pyUse, pyNeg, BitXor(1 - bit, negate));
    }

    // One iteration: R := 2 R +- P'
    method LadderIteration(rx: array<Word>, ry: array<Word>, rz: array<Word>, px: array<Word>, pyUse: array<Word>,
                           ghost k: nat, ghost bit: nat, ghost Q: Point)
      requires Standard() && J(rx, ry, rz) && A(px, pyUse)
      requires px !in {rx, ry, rz} && pyUse !in {rx, ry, rz}
      requires Q.Affine? && OnCurve(C(), Q) && bit <= 1 && 1 < 2 * k < n.M() - 1
      requires APoint(px, pyUse) == if bit == 1 then Q else Neg(C(), Q)
      requires JPoint(rx, ry, rz) == Mul(C(), k, Q)
      modifies rx, ry, rz
      ensures J(rx, ry, rz) && JPoint(rx, ry, rz) == Mul(C(), 2 * k + 2 * bit - 1, Q)
    {
      hide J, JPoint, A, APoint, Mul, Curve.Add, OnCurve, IsGroup;
      LadderStep(C(), k, bit, Q);
      PointDouble(rx, ry, rz);
      NegAbscissa(C(), Q);
      PointAdd(rx, ry, rz, px, pyUse);
    }

    // What the ladder reads: the two candidate points and the odd scalar.
    ghost predicate LadderInput(px: array<Word>, py: array<Word>, pyNeg: array<Word>, sOdd: array<Word>,
                                negate: Word, Q: Point)
      requires Valid()
      reads px, py, pyNeg, sOdd
    {
      && A(px, py) && A(px, pyNeg) && OnCurve(C(), Q)
      && sOdd.Length == 8 && Val(sOdd[..]) % 2 == 1 && 0 < Val(sOdd[..]) < n.M()
      && negate <= 1 && APoint(px, pyNeg) == Neg(C(), APoint(px, py))
      && Q == if negate == 1 then APoint(px, pyNeg) else APoint(px, py)
    }

    // The signed multiple of P' that iteration i adds.
    method SelectPoint(px: array<Word>, py: array<Word>, pyNeg: array<Word>, pyUse: array<Word>, sOdd: array<Word>,
                       negate: Word, i: nat, ghost Q: Point) returns (ghost bit: nat)
      requires Valid() && LadderInput(px, py, pyNeg, sOdd, negate, Q) && i < 256
      requires pyUse.Length == 8 && pyUse !in {px, py, pyNeg, sOdd}
      modifies pyUse
      ensures A(px, pyUse) && Val(sOdd[..]) >= 0 && bit == Bit(Val(sOdd[..]), i)
      ensures APoint(px, pyUse) == if bit == 1 then Q else Neg(C(), Q)
    {
      hide OnCurve, Bit;
      LimbBit(sOdd[..], i);
      NegNeg(C(), APoint(px, py));
      var b := sOdd[i / 32] / Pow(2, i % 32) % 2;
      bit := b;
      SelectOrdinate(pyUse, py, pyNeg, b, negate);
      assert F(px) == old(F(px)) && F(py) == old(F(py)) && F(pyNeg) == old(F(pyNeg));
    }

    // The loop over bits 255 down to 1 of the odd scalar.
    method LadderLoop(rx: array<Word>, ry: array<Word>, rz: array<Word>, px: array<Word>, py: array<Word>,
                      pyNeg: array<Word>, pyUse: array<Word>, sOdd: array<Word>, negate: Word, ghost Q: Point)
      requires Standard() && J(rx, ry, rz) && LadderInput(px, py, pyNeg, sOdd, negate, Q) && pyUse.Length == 8
      requires {px, py, pyNeg, sOdd} !! {rx, ry, rz, pyUse} && pyUse !in {rx, ry, rz}
      requires JPoint(rx, ry, rz) == Q && Q.Affine?
      modifies rx, ry, rz, pyUse
      ensures Val(old(sOdd[..])) >= 0
      ensures J(rx, ry, rz) && JPoint(rx, ry, rz) == Mul(C(), Val(old(sOdd[..])), Q)
    {
      hide J, JPoint, A, APoint, Mul, Curve.Add, IsGroup, Index, Bit;
      ghost var so := Val(sOdd[..]);
      TopIndex(sOdd[..], Q);
      var i := 255;
      while i > 0
        invariant 0 <= i <= 255 && LadderInput(px, py, pyNeg, sOdd, negate, Q) && Val(sOdd[..]) == so
        invariant J(rx, ry, rz) && JPoint(rx, ry, rz) == Mul(C(), Index(so, i), Q)
      {
        ghost var bit := SelectPoint(px, py, pyNeg, pyUse, sOdd, negate, i, Q);
        IndexSafe(so, n.M(), i);
        IndexStep(so, i);
        LadderIteration(rx, ry, rz, px, pyUse, Index(so, i), bit, Q);
        i := i - 1;
      }
      IndexEnd(so);
    }

    // The ladder starts at 1 * P'.
    lemma TopIndex(ss: seq<Word>, Q: Point)
      requires Standard() && |ss| == 8
      ensures Val(ss) >= 0 && Index(Val(ss), 255) == 1 && Mul(C(), 1, Q) == Q
    {
      ValBound(ss);
      PowerOfWords(8);
      IndexStart(Val(ss), 255);
      MulOne(C(), Q);
    }

    // s_odd := s if s is odd, n - s otherwise; negate tells which
    method SetupScalar(sOdd: array<Word>, s: array<Word>) returns (negate: Word)
      requires Valid() && s.Length == 8 && sOdd.Length == 8 && sOdd != s && 0 < Val(s[..]) < n.M()
      modifies sOdd
      ensures 0 < Val(s[..]) && Val(sOdd[..]) == OddScalar(C(), Val(s[..]))
      ensures negate == if Val(s[..]) % 2 == 1 then 0 else 1
    {
      LowBit(s[..]);
      var ns := Load(n.m);
      var borrow := U256Sub(sOdd, ns, s);
      LowBitOf(B - 1 - s[0]);
      negate := BitAnd(B - 1 - s[0], 1);
      NegateBit(s[0]);
      U256CMov(sOdd, s, 1 - negate);
    }

    // s_odd and negate from s; py_neg = -py
    method LadderSetup(sOdd: array<Word>, pyNeg: array<Word>, px: array<Word>, py: array<Word>, s: array<Word>)
        returns (negate: Word, ghost Q: Point)
      requires Standard() && A(px, py) && s.Length == 8 && 0 < Val(s[..]) < n.M()
      requires sOdd.Length == 8 && pyNeg.Length == 8 && sOdd != pyNeg && sOdd !in {px, py, s} && pyNeg !in {px, py, s}
      modifies sOdd, pyNeg
      ensures LadderInput(px, py, pyNeg, sOdd, negate, Q) && Q.Affine?
      ensures 0 < Val(s[..]) && 0 < Val(sOdd[..])
      ensures Mul(C(), Val(sOdd[..]), Q) == Mul(C(), Val(s[..]), APoint(px, py))
    {
      hide Mul, Curve.Add, OnCurve, IsGroup, E, F, P, Neg;
      ghost var S, PP := Val(s[..]), APoint(px, py);
      OddMultiple(C(), S, PP);
      Q := OddPoint(C(), S, PP);
      negate := SetupScalar(sOdd, s);
      NegateY(pyNeg, py);
      NegatedPoint(C(), PP, F(pyNeg));
    }

    // py_neg = 0 - py
    method NegateY(pyNeg: array<Word>, py: array<Word>)
      requires Valid() && E(py) && pyNeg.Length == 8 && pyNeg != py
      modifies pyNeg
      ensures E(pyNeg) && F(pyNeg) == (-F(py)) % P()
    {
      var zero := new Word[8];
      U256Set32(zero, 0);
      SubP(pyNeg, zero, py);
      DecZero(P(), p.ni);
    }

    // R := s * P for a finite curve point P and 0 < s < n
    method ScalarMult(rx: array<Word>, ry: array<Word>, px: array<Word>, py: array<Word>, s: array<Word>)
      requires Standard() && A(px, py) && s.Length == 8 && 0 < Val(s[..]) < n.M()
      requires rx.Length == 8 && ry.Length == 8 && rx != ry && rx !in {px, py, s} && ry !in {px, py, s}
      modifies rx, ry
      ensures 0 < Val(old(s[..]))
      ensures A(rx, ry) && APoint(rx, ry) == Mul(C(), Val(old(s[..])), old(APoint(px, py)))
    {
      hide J, JPoint, E, F, Mul, Curve.Add, OnCurve, IsGroup;
      ghost var S, PP := Val(s[..]), APoint(px, py);
      var sOdd := new Word[8];
      var pyNeg := new Word[8];
      var pyUse := new Word[8];
      var rz := new Word[8];
      var negate;
      ghost var Q;
      negate, Q := LadderSetup(sOdd, pyNeg, px, py, s);
      LadderStart(rx, ry, rz, px, py, pyNeg, sOdd, negate, Q);
      LadderLoop(rx, ry, rz, px, py, pyNeg, pyUse, sOdd, negate, Q);
      PointToAffine(rx, ry, rz);
      FiniteMultiple(C(), S, PP);
    }

    // R := P' = (px : (-1)^negate py : 1)
    method LadderStart(rx: array<Word>, ry: array<Word>, rz: array<Word>, px: array<Word>, py: array<Word>,
                       pyNeg: array<Word>, sOdd: array<Word>, negate: Word, ghost Q: Point)
      requires Good() && LadderInput(px, py, pyNeg, sOdd, negate, Q) && Q.Affine?
      requires rx.Length == 8 && ry.Length == 8 && rz.Length == 8 && rx != ry && rx != rz && ry != rz
      requires {px, py, pyNeg, sOdd} !! {rx, ry, rz}
      modifies rx, ry, rz
      ensures J(rx, ry, rz) && JPoint(rx, ry, rz) == Q
      ensures LadderInput(px, py, pyNeg, sOdd, negate, Q) && sOdd[..] == old(sOdd[..])
    {
      hide OnCurve, OnJacobian, ToAffine;
      U256CMov(rx, px, 1);
      U256CMov(ry, py, 1);
      p.Set32(rz, 1);
      U256CMov(ry, pyNeg, negate);
      AffineIsJacobian(C(), Q, F(rz));
    }

    lemma SameResidue(x: array<Word>, y: array<Word>)
      requires Valid() && E(x) && E(y)
      ensures F(x) == F(y) <==> Val(x[..]) == Val(y[..])
    {
      if F(x) == F(y) { DecInjective(Val(x[..]), Val(y[..]), P(), p.ni); }
    }
  }

  lemma NegNeg(c: Params, P: Point)
    requires c.p > 3 && OnCurve(c, P)
    ensures Neg(c, Neg(c, P)) == P
  {
    if P.Affine? {
      ModMod(-P.y, c.p);
      CongSub(0, 0, (-P.y) % c.p, -P.y, c.p);
      ModSmall(P.y, c.p);
    }
  }

  lemma NegateBit(w: Word)
    ensures (B - 1 - w) % 2 == 1 - w % 2
  {
  }

  lemma DecZero(m: int, ni: int)
    requires m > 0
    ensures Dec(0, m, ni) == 0
  {
    ModSmall(0, m);
    assert 0 * Power(InverseOfB(m, ni), 8) == 0;
  }

  lemma NegatedPoint(c: Params, P: Point, y: int)
    requires Sound(c) && c.b % c.p != 0 && P.Affine? && OnCurve(c, P) && y == (-P.y) % c.p
    ensures Affine(P.x, y) == Neg(c, P) && OnCurve(c, Neg(c, P)) && (P.x != 0 || y != 0)
  {
    AddNeg(c, P);
    NotOrigin(c, P.x, y);
  }

  lemma FiniteMultiple(c: Params, s: nat, P: Point)
    requires IsGroup(c) && P.Affine? && OnCurve(c, P) && 0 < s < c.n
    ensures Mul(c, s, P).Affine? && OnCurve(c, Mul(c, s, P))
  {
    ModSmall(s, c.n);
    MulNonzero(c, s, P);
    MulOnCurve(c, s, P);
  }

  lemma NegAbscissa(c: Params, P: Point)
    requires c.p > 3 && P.Affine?
    ensures Neg(c, P).Affine? && Neg(c, P).x == P.x
  {
  }

  lemma AffineMeaning(c: Params, X: int, Y: int, Z: int, i: int, x: int, y: int)
    requires Sound(c) && c.b % c.p != 0 && OnJacobian(c, X, Y, Z) && i == Inv(Z, c.p)
    requires var ii := FMul(i, i, c.p); x == FMul(X, ii, c.p) && y == FMul(Y, FMul(ii, i, c.p), c.p)
    ensures (if x == 0 && y == 0 then Zero else Affine(x, y)) == ToAffine(c, X, Y, Z)
    ensures OnCurve(c, ToAffine(c, X, Y, Z))
  {
    hide OnJacobian;
    var p := c.p;
    ModMul(X, i * i, p);
    ModMul(i * i, i, p);
    ModMul(Y, (i * i) * i, p);
    ModMul(Y, ((i * i) % p) * i, p);
    assert (i * i) * i == Cube(i);
    ModSmall(0, p);
    if Z % p != 0 {
      ToAffineScaled(c, X, Y, Z);
      OnJacobianIff(c, X, Y, Z, x, y);
      NotOrigin(c, x, y);
    }
  }

  lemma NotOrigin(c: Params, x: int, y: int)
    requires c.p > 3 && c.b % c.p != 0 && (y * y) % c.p == Rhs(c, x) % c.p
    ensures x != 0 || y != 0
  {
    ModSmall(0, c.p);
  }

  lemma CheckMeaning(c: Params, x: int, y: int, l: int, r: int)
    requires c.p > 3 && 0 <= x < c.p && 0 <= y < c.p
    requires l == FMul(y, y, c.p)
    requires var xxx := FMul(FMul(x, x, c.p), x, c.p);
             r == FAdd(FSub(FSub(FSub(xxx, x, c.p), x, c.p), x, c.p), c.b, c.p)
    ensures l == r <==> OnCurve(c, Affine(x, y))
  {
    RhsProgram(c, x, r);
  }

  // The program for the right-hand side of the equation, on residues.
  lemma RhsProgram(c: Params, x: int, r: int)
    requires c.p > 3
    requires var xxx := FMul(FMul(x, x, c.p), x, c.p);
             r == FAdd(FSub(FSub(FSub(xxx, x, c.p), x, c.p), x, c.p), c.b, c.p)
    ensures r == Rhs(c, x) % c.p
  {
    var p := c.p;
    LiftMul(x, x, x, x, p);
    var xx := FMul(x, x, p);
    LiftMul(xx, x * x, x, x, p);
    var t := FMul(xx, x, p);
    LiftSub(t, (x * x) * x, x, x, p);
    var t1 := FSub(t, x, p);
    LiftSub(t1, (x * x) * x - x, x, x, p);
    var t2 := FSub(t1, x, p);
    LiftSub(t2, (x * x) * x - x - x, x, x, p);
    var t3 := FSub(t2, x, p);
    LiftAdd(t3, (x * x) * x - x - x - x, c.b, c.b, p);
    ModMod(t3 + c.b, p);
  }

  // (x, y) is (x:y:1)
  lemma AffineIsJacobian(c: Params, P: Point, one: int)
    requires Sound(c) && P.Affine? && OnCurve(c, P) && one == 1 % c.p
    ensures OnJacobian(c, P.x, P.y, one) && ToAffine(c, P.x, P.y, one) == P
  {
    ModSmall(1, c.p);
    assert P.x * (1 * 1) == P.x && P.y * Cube(1) == P.y;
    OnJacobianIff(c, P.x, P.y, 1, P.x, P.y);
    ScaledToAffine(c, P.x, P.y, 1, P.x, P.y);
  }

  // Points with one abscissa and different ordinates cancel.
  lemma OppositeSum(c: Params, P: Point, Q: Point)
    requires Sound(c) && P.Affine? && Q.Affine? && OnCurve(c, P) && OnCurve(c, Q)
    requires P.x == Q.x && P.y != Q.y
    ensures Curve.Add(c, P, Q) == Zero
  {
    if (P.y + Q.y) % c.p != 0 { SameAbscissa(c, P, Q); }
  }
}
