/** Scalar multiples on the curve. That chord-and-tangent addition is
    associative and that the group has prime order n are facts about P-256 the
    code takes for granted; they are hypotheses here, collected in `IsGroup`. */
module CurveGroup {
  import opened Curve
  import opened Numbers

  ghost predicate Sound(c: Params) {
    IsPrime(c.p) && c.p > 3
  }

  ghost function Mul(c: Params, k: nat, P: Point): Point
    requires Sound(c)
  {
    if k == 0 then Zero else Add(c, Mul(c, k - 1, P), P)
  }

  ghost predicate AssocAt(c: Params, P: Point, Q: Point, R: Point)
    requires Sound(c)
  {
    OnCurve(c, P) && OnCurve(c, Q) && OnCurve(c, R) ==>
      Add(c, Add(c, P, Q), R) == Add(c, P, Add(c, Q, R))
  }

  ghost predicate OrderAt(c: Params, P: Point)
    requires Sound(c) && c.n > 0
  {
    OnCurve(c, P) ==> Mul(c, c.n, P) == Zero
  }

  // The hypotheses: p and n prime, addition associative, order n.
  ghost predicate IsGroup(c: Params) {
    && Sound(c) && IsPrime(c.n)
    && (forall P: Point, Q: Point, R: Point :: AssocAt(c, P, Q, R))
    && (forall P: Point :: OrderAt(c, P))
  }

  lemma Assoc(c: Params, P: Point, Q: Point, R: Point)
    requires IsGroup(c) && OnCurve(c, P) && OnCurve(c, Q) && OnCurve(c, R)
    ensures Add(c, Add(c, P, Q), R) == Add(c, P, Add(c, Q, R))
  {
    assert AssocAt(c, P, Q, R);
  }

  lemma Order(c: Params, P: Point)
    requires IsGroup(c) && OnCurve(c, P)
    ensures Mul(c, c.n, P) == Zero
  {
    assert OrderAt(c, P);
  }

  lemma {:induction false} MulOnCurve(c: Params, k: nat, P: Point)
    requires Sound(c) && OnCurve(c, P)
    ensures OnCurve(c, Mul(c, k, P))
  {
    if k != 0 {
      MulOnCurve(c, k - 1, P);
      AddOnCurve(c, Mul(c, k - 1, P), P);
    }
  }

  lemma {:induction false} MulAdd(c: Params, j: nat, k: nat, P: Point)
    requires IsGroup(c) && OnCurve(c, P)
    ensures Mul(c, j + k, P) == Add(c, Mul(c, j, P), Mul(c, k, P))
  {
    hide Add;
    if k == 0 {
      AddZero(c, Mul(c, j, P));
    } else {
      MulAdd(c, j, k - 1, P);
      MulOnCurve(c, j, P);
      MulOnCurve(c, k - 1, P);
      Assoc(c, Mul(c, j, P), Mul(c, k - 1, P), P);
    }
  }

  lemma AddZero(c: Params, P: Point)
    requires Sound(c)
    ensures Add(c, P, Zero) == P == Add(c, Zero, P)
  {
  }

  lemma MulOne(c: Params, P: Point)
    requires Sound(c)
    ensures Mul(c, 1, P) == P
  {
    AddZero(c, P);
    assert Mul(c, 0, P) == Zero;
  }

  lemma {:induction false} MulMul(c: Params, j: nat, k: nat, P: Point)
    requires IsGroup(c) && OnCurve(c, P)
    ensures 0 <= j * k && Mul(c, j, Mul(c, k, P)) == Mul(c, j * k, P)
  {
    if j != 0 {
      MulMul(c, j - 1, k, P);
      assert j * k == (j - 1) * k + k;
      MulAdd(c, (j - 1) * k, k, P);
    }
  }

  lemma {:induction false} MulZero(c: Params, k: nat)
    requires Sound(c)
    ensures Mul(c, k, Zero) == Zero
  {
    if k != 0 { MulZero(c, k - 1); }
  }

  // Multiples distribute over sums.
  lemma {:induction false} MulSum(c: Params, k: nat, P: Point, Q: Point)
    requires IsGroup(c) && OnCurve(c, P) && OnCurve(c, Q)
    ensures Mul(c, k, Add(c, P, Q)) == Add(c, Mul(c, k, P), Mul(c, k, Q))
  {
    hide Add, IsGroup;
    GroupIsSound(c);
    if k == 0 {
      AddZero(c, Zero);
    } else {
      MulSum(c, k - 1, P, Q);
      MulOnCurve(c, k - 1, P);
      MulOnCurve(c, k - 1, Q);
      Interchange(c, Mul(c, k - 1, P), Mul(c, k - 1, Q), P, Q);
    }
  }

  lemma GroupIsSound(c: Params)
    requires IsGroup(c)
    ensures Sound(c) && IsPrime(c.n)
  {
  }

  lemma Interchange(c: Params, A: Point, C: Point, P: Point, Q: Point)
    requires IsGroup(c) && OnCurve(c, A) && OnCurve(c, C) && OnCurve(c, P) && OnCurve(c, Q)
    ensures Add(c, Add(c, A, C), Add(c, P, Q)) == Add(c, Add(c, A, P), Add(c, C, Q))
  {
    hide Add, IsGroup;
    GroupIsSound(c);
    AddOnCurve(c, P, Q);
    AddOnCurve(c, C, Q);
    Assoc(c, A, C, Add(c, P, Q));
    Assoc(c, C, P, Q);
    AddCommutes(c, C, P);
    Assoc(c, P, C, Q);
    Assoc(c, A, P, Add(c, C, Q));
  }

  // Scalars count modulo n.
  lemma MulMod(c: Params, k: nat, P: Point)
    requires IsGroup(c) && OnCurve(c, P)
    ensures Mul(c, k, P) == Mul(c, k % c.n, P)
  {
    var q, r := k / c.n, k % c.n;
    DivMod(k, c.n);
    if q < 0 { MulLe(q, -1, c.n); }
    MulMul(c, q, c.n, P);
    Order(c, P);
    MulZero(c, q);
    MulAdd(c, q * c.n, r, P);
    AddZero(c, Mul(c, r, P));
  }

  lemma MulCong(c: Params, j: nat, k: nat, P: Point)
    requires IsGroup(c) && OnCurve(c, P) && j % c.n == k % c.n
    ensures Mul(c, j, P) == Mul(c, k, P)
  {
    MulMod(c, j, P);
    MulMod(c, k, P);
  }

  // A finite point has order exactly n.
  lemma MulNonzero(c: Params, k: nat, P: Point)
    requires IsGroup(c) && OnCurve(c, P) && P.Affine? && k % c.n != 0
    ensures Mul(c, k, P).Affine?
  {
    hide Add, Mul;
    var t := InverseExists(k, c.n);
    MulMul(c, t, k, P);
    assert t * k == k * t;
    ModSmall(1, c.n);
    MulCong(c, t * k, 1, P);
    MulOne(c, P);
    if Mul(c, k, P).Zero? { MulZero(c, t); }
  }

  lemma AddNeg(c: Params, P: Point)
    requires Sound(c) && OnCurve(c, P)
    ensures OnCurve(c, Neg(c, P)) && Add(c, P, Neg(c, P)) == Zero == Add(c, Neg(c, P), P)
  {
    if P.Affine? {
      var p, y := c.p, (-P.y) % c.p;
      DivMod(-P.y, p);
      ModMul(-P.y, -P.y, p);
      assert (-P.y) * (-P.y) == P.y * P.y;
      ModSmall(0, p);
      ModMod(-P.y, p);
      CongAdd(P.y, P.y, y, -P.y, p);
      assert P.y + y == y + P.y;
    }
  }

  // What cancels P is its negative.
  lemma NegUnique(c: Params, R: Point, P: Point)
    requires IsGroup(c) && OnCurve(c, P) && OnCurve(c, R) && Add(c, R, P) == Zero
    ensures R == Neg(c, P)
  {
    hide Add;
    AddNeg(c, P);
    Assoc(c, R, P, Neg(c, P));
    AddZero(c, R);
    AddZero(c, Neg(c, P));
  }

  lemma MulNegative(c: Params, k: nat, P: Point)
    requires IsGroup(c) && OnCurve(c, P) && k <= c.n
    ensures Mul(c, c.n - k, P) == Neg(c, Mul(c, k, P))
  {
    MulAdd(c, c.n - k, k, P);
    Order(c, P);
    MulOnCurve(c, k, P);
    MulOnCurve(c, c.n - k, P);
    NegUnique(c, Mul(c, c.n - k, P), Mul(c, k, P));
  }

  // -P = (n-1) P, so its multiples are the negatives of the multiples of P.
  lemma MulOfNeg(c: Params, k: nat, P: Point)
    requires IsGroup(c) && OnCurve(c, P) && k <= c.n
    ensures OnCurve(c, Neg(c, P)) && Mul(c, k, Neg(c, P)) == Mul(c, c.n - k, P)
  {
    AddNeg(c, P);
    MulOne(c, P);
    MulNegative(c, 1, P);
    MulMul(c, k, c.n - 1, P);
    assert k * (c.n - 1) == (c.n - k) + (k - 1) * c.n;
    ModShift(k * (c.n - 1), c.n - k, k - 1, c.n);
    MulCong(c, k * (c.n - 1), c.n - k, P);
  }

  // Multiples below n of a finite point are different points, and two of
  // them share an abscissa only when they are opposite.
  lemma MulInjective(c: Params, j: nat, k: nat, P: Point)
    requires IsGroup(c) && OnCurve(c, P) && P.Affine? && j < c.n && k < c.n
    requires Mul(c, j, P) == Mul(c, k, P)
    ensures j == k
  {
    if j < k { MulDistinct(c, j, k, P); }
    if k < j { MulDistinct(c, k, j, P); }
  }

  lemma MulDistinct(c: Params, j: nat, k: nat, P: Point)
    requires IsGroup(c) && OnCurve(c, P) && P.Affine? && j < k < c.n
    ensures Mul(c, j, P) != Mul(c, k, P)
  {
    if Mul(c, j, P) == Mul(c, k, P) {
      MulNegative(c, k, P);
      MulAdd(c, j, c.n - k, P);
      MulOnCurve(c, k, P);
      AddNeg(c, Mul(c, k, P));
      ModSmall(j + (c.n - k), c.n);
      MulNonzero(c, j + (c.n - k), P);
    }
  }

  lemma SharedAbscissa(c: Params, j: nat, k: nat, P: Point)
    requires IsGroup(c) && OnCurve(c, P) && P.Affine? && 0 < j < c.n && 0 < k < c.n
    requires Mul(c, j, P).Affine? && Mul(c, k, P).Affine? && Mul(c, j, P).x == Mul(c, k, P).x
    ensures j == k || j + k == c.n
  {
    var A, C := Mul(c, j, P), Mul(c, k, P);
    MulOnCurve(c, j, P);
    MulOnCurve(c, k, P);
    if (A.y + C.y) % c.p != 0 {
      SameAbscissa(c, A, C);
      MulInjective(c, j, k, P);
    } else {
      assert Add(c, A, C) == Zero;
      MulAdd(c, j, k, P);
      if j + k != c.n {
        if j + k < c.n { ModSmall(j + k, c.n); } else { DivModUnique(j + k, c.n, 1, j + k - c.n); }
        MulNonzero(c, j + k, P);
      }
    }
  }
}
