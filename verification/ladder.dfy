/** The signed-binary ladder in the exponent: which multiple of the base point
    each iteration holds, and why the addition never meets its exceptions. */
module Ladder {
  import opened Curve
  import opened CurveGroup
  import opened Limbs
  import opened Numbers

  // Before iteration i the ladder holds this multiple of P'.
  ghost function Index(s: nat, i: nat): nat {
    PowPositive(2, i + 1);
    2 * (s / Pow(2, i + 1)) + 1
  }

  ghost function Bit(s: nat, i: nat): (b: nat)
    ensures b <= 1
  {
    PowPositive(2, i);
    s / Pow(2, i) % 2
  }

  // Doubling and adding the signed bit moves the index down one bit.
  lemma IndexStep(s: nat, i: nat)
    requires i >= 1
    ensures 2 * Index(s, i) + 2 * Bit(s, i) - 1 == Index(s, i - 1)
  {
    PowPositive(2, i);
    DivDiv(s, Pow(2, i), 2);
    var h := s / Pow(2, i);
    assert Pow(2, i + 1) == Pow(2, i) * 2;
    assert h == 2 * (h / 2) + h % 2;
  }

  lemma IndexStart(s: nat, i: nat)
    requires s < Pow(2, i + 1)
    ensures Index(s, i) == 1
  {
    DivModUnique(s, Pow(2, i + 1), 0, s);
  }

  lemma IndexEnd(s: nat)
    requires s % 2 == 1
    ensures Index(s, 0) == s
  {
    assert Pow(2, 1) == 2;
  }

  // 1 < 2 s_i < n - 1 for odd s <= n - 2 when n = 1 mod 4: the extreme
  // s = n - 2 then has bit 1 set.
  lemma IndexSafe(s: nat, n: nat, i: nat)
    requires i >= 1 && s % 2 == 1 && s < n && n % 4 == 1 && n > 4
    ensures 1 < 2 * Index(s, i) < n - 1
  {
    PowPositive(2, i + 1);
    assert Pow(2, 1) == 2 && Pow(2, 2) == 4 && Pow(2, 3) == 8;
    if i == 1 {
      assert Index(s, i) == 2 * (s / 4) + 1;
    } else {
      PowMonotone(2, 3, i + 1);
      DivLe(s, 8, Pow(2, i + 1));
    }
  }

  // With n = 3 mod 4 the same ladder would add -P' to 2 s_1 P' = (n-1) P' = -P'.
  lemma IndexUnsafe(n: nat)
    requires n % 4 == 3
    ensures 2 * Index(n - 2, 1) == n - 1 && Bit(n - 2, 1) == 0
  {
    assert Pow(2, 1) == 2 && Pow(2, 2) == 4;
  }

  lemma DivLe(a: nat, m: nat, n: nat)
    requires 0 < m <= n
    ensures 0 <= a / n <= a / m
  {
    var q := a / n;
    DivMod(a, n);
    DivMod(a, m);
    if q < 0 { MulLe(q, -1, n); }
    if q > a / m {
      MulLe(a / m + 1, q, n);
      MulLe(m, n, a / m + 1);
    }
  }

  // Bit i of a number read off its limbs.
  lemma LimbBit(s: seq<Word>, i: nat)
    requires i / 32 < |s|
    ensures Pow(2, i % 32) > 0 && Val(s) >= 0
    ensures s[i / 32] / Pow(2, i % 32) % 2 == Bit(Val(s), i)
  {
    var k, r := i / 32, i % 32;
    PowPositive(2, r);
    ValBound(s);
    ValDrop(s, k);
    ValCons(s[k..]);
    ValBound(s[k..][1..]);
    PowerOfWords(k);
    PowAdd(2, 32 * k, r);
    DivDiv(Val(s), Pow(2, 32 * k), Pow(2, r));
    LowBitsDecide(s[k], Val(s[k..][1..]), r);
  }

  lemma LowBitsDecide(w: Word, v: nat, r: nat)
    requires r < 32
    ensures Pow(2, r) > 0
    ensures (w + B * v) / Pow(2, r) % 2 == w / Pow(2, r) % 2
  {
    PowPositive(2, r);
    PowAdd(2, r, 31 - r);
    PowAdd(2, 31, 1);
    Pow2At32();
    assert Pow(2, 1) == 2;
    ParityBelow(w, v, Pow(2, r), Pow(2, 31 - r), B);
  }

  lemma ParityBelow(w: nat, v: nat, q: nat, h: nat, radix: nat)
    requires q > 0 && 2 * (q * h) == radix
    ensures (w + radix * v) / q % 2 == w / q % 2
  {
    DivMod(w, q);
    var t := h * v;
    assert (q * h) * v == q * t by { MulAssoc(q, h, v); }
    assert radix * v == 2 * (q * t);
    assert q * (w / q + 2 * t) == q * (w / q) + 2 * (q * t);
    DivModUnique(w + radix * v, q, w / q + 2 * t, w % q);
    ModShift(w / q + 2 * t, w / q, t, 2);
  }

  // One iteration in the group: neither 2R nor its abscissa is exceptional,
  // and R becomes 2R +- P'.
  lemma LadderStep(c: Params, k: nat, bit: nat, P: Point)
    requires IsGroup(c) && OnCurve(c, P) && P.Affine?
    requires bit <= 1 && 1 < 2 * k < c.n - 1
    ensures var D := Add(c, Mul(c, k, P), Mul(c, k, P));
            && D.Affine? && D.x != P.x
            && Add(c, D, if bit == 1 then P else Neg(c, P)) == Mul(c, 2 * k + 2 * bit - 1, P)
  {
    hide Add, Neg;
    MulAdd(c, k, k, P);
    MulOne(c, P);
    ModSmall(2 * k, c.n);
    MulNonzero(c, 2 * k, P);
    if Mul(c, 2 * k, P).x == P.x { SharedAbscissa(c, 2 * k, 1, P); }
    if bit == 1 {
      MulAdd(c, 2 * k, 1, P);
    } else {
      MulAdd(c, 2 * k - 1, 1, P);
      MulOnCurve(c, 2 * k - 1, P);
      AddNeg(c, P);
      Assoc(c, Mul(c, 2 * k - 1, P), P, Neg(c, P));
      AddZero(c, Mul(c, 2 * k - 1, P));
    }
  }

  // The odd scalar the code works with, and the point it goes with.
  ghost function OddScalar(c: Params, s: nat): int {
    if s % 2 == 1 then s else c.n - s
  }

  ghost function OddPoint(c: Params, s: nat, P: Point): Point
    requires c.p > 3
  {
    if s % 2 == 1 then P else Neg(c, P)
  }

  lemma OddMultiple(c: Params, s: nat, P: Point)
    requires IsGroup(c) && OnCurve(c, P) && P.Affine? && 0 < s < c.n && c.n % 2 == 1
    ensures 0 < OddScalar(c, s) < c.n && OddScalar(c, s) % 2 == 1
    ensures OnCurve(c, OddPoint(c, s, P)) && OddPoint(c, s, P).Affine?
    ensures Mul(c, OddScalar(c, s), OddPoint(c, s, P)) == Mul(c, s, P)
  {
    hide Add, Mul, OnCurve;
    if s % 2 == 0 { MulOfNeg(c, c.n - s, P); }
  }
}
