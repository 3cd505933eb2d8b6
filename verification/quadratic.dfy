/** Squares modulo an odd prime: Euler's criterion by pairing, and a non-square
    by counting. */
module Quadratic {
  import opened Numbers

  predicate IsSquare(a: int, p: int)
    requires p > 0
  {
    exists x :: 0 <= x < p && (x * x) % p == a % p
  }

  // The Jacobi symbol at a prime.
  function Jacobi(a: int, p: int): int
    requires p > 0
  {
    if a % p == 0 then 0 else if IsSquare(a, p) then 1 else -1
  }

  ghost predicate OddPrime(p: int) {
    IsPrime(p) && p % 2 == 1
  }

  lemma OnlyTwoRoots(x: int, p: int)
    requires IsPrime(p) && (x * x) % p == 1
    ensures x % p == 1 || x % p == p - 1
  {
    ModSmall(1, p);
    CongSub(x * x, 1, 1, 1, p);
    assert x * x - 1 == (x - 1) * (x + 1);
    ModSmall(0, p);
    Euclid(x - 1, x + 1, p);
    if (x - 1) % p == 0 {
      CongAdd(x - 1, 0, 1, 1, p);
    } else {
      CongSub(x + 1, 0, 1, 1, p);
      ModShift(-1, p - 1, -1, p);
      ModSmall(p - 1, p);
    }
  }

  // ------------------------------------------------------ pairing x with a/x

  ghost function Partner(x: int, a: int, p: int): (y: int)
    requires IsPrime(p) && 0 < x < p && a % p != 0
    ensures 0 < y < p && (x * y) % p == a % p
  {
    var r := Inverse(x, p);
    var y := (a * r) % p;
    PartnerIs(x, a, r, p);
    y
  }

  lemma PartnerIs(x: int, a: int, r: int, p: int)
    requires p > 1 && 0 < x < p && a % p != 0 && (x * r) % p == 1
    ensures 0 < (a * r) % p < p && (x * ((a * r) % p)) % p == a % p
  {
    DivMod(a * r, p);
    ModMul(x, a * r, p);
    Rotate(x, a, r, p);
    if (a * r) % p == 0 { ModSmall(0, p); }
  }

  lemma Rotate(x: int, a: int, r: int, p: int)
    requires p > 1 && (x * r) % p == 1
    ensures (x * (a * r)) % p == a % p
  {
    assert x * (a * r) == (x * r) * a;
    ModSmall(1, p);
    CongMul(x * r, 1, a, a, p);
  }

  lemma PartnerUnique(x: int, y: int, a: int, p: int)
    requires IsPrime(p) && 0 < x < p && 0 < y < p && a % p != 0 && (x * y) % p == a % p
    ensures Partner(x, a, p) == y && Partner(y, a, p) == x
  {
    ModSmall(x, p);
    ModSmall(y, p);
    var y', x' := Partner(x, a, p), Partner(y, a, p);
    ModSmall(y', p);
    ModSmall(x', p);
    Cancel(x, y, y', p);
    assert y * x == x * y;
    Cancel(y, x, x', p);
  }

  ghost predicate Paired(s: set<int>, a: int, p: int)
    requires IsPrime(p) && a % p != 0
  {
    && (forall x :: x in s ==> 0 < x < p)
    && forall x {:trigger Partner(x, a, p)} :: x in s ==> Partner(x, a, p) in s && Partner(x, a, p) != x
  }

  lemma Unpair(s: set<int>, x: int, a: int, p: int)
    requires IsPrime(p) && a % p != 0 && Paired(s, a, p) && x in s
    ensures Paired(s - {x} - {Partner(x, a, p)}, a, p)
  {
    hide IsPrime, Partner;
    var y := Partner(x, a, p);
    forall u | u in s && u != x && u != y
      ensures Partner(u, a, p) != x && Partner(u, a, p) != y
    {
      var w := Partner(u, a, p);
      PartnerUnique(u, w, a, p);
      PartnerUnique(x, y, a, p);
    }
  }

  lemma EmptyProduct(a: int, s: set<int>)
    requires s == {}
    ensures Prod(s) == Pow(a, 0)
  {
  }

  lemma OnePair(x: int, y: int, a: int, u: int, w: int, p: int)
    requires p > 0 && (x * y) % p == a % p && u % p == w % p
    ensures (x * (y * u)) % p == (a * w) % p
  {
    assert x * (y * u) == (x * y) * u;
    CongMul(x * y, a, u, w, p);
  }

  // A set split into pairs of product a multiplies to a power of a.
  lemma {:induction false} PairProduct(s: set<int>, a: int, p: int)
    requires IsPrime(p) && a % p != 0 && Paired(s, a, p)
    ensures |s| % 2 == 0 && Prod(s) % p == Pow(a, |s| / 2) % p
  {
    hide IsPrime, Partner, Prod, Pow;
    if s == {} {
      EmptyProduct(a, s);
    } else {
      var x := Pick(s);
      var y := Partner(x, a, p);
      var s' := s - {x} - {y};
      assert |s'| == |s| - 2;
      ProdRemove(s, x);
      ProdRemove(s - {x}, y);
      Unpair(s, x, a, p);
      PairProduct(s', a, p);
      PowStep(a, |s'| / 2);
      OnePair(x, y, a, Prod(s'), Pow(a, |s'| / 2), p);
    }
  }

  // Without a root of a every residue has a partner other than itself.
  lemma AllPaired(a: int, p: int)
    requires IsPrime(p) && a % p != 0 && !IsSquare(a, p)
    ensures Paired(Range(p - 1), a, p)
  {
  }

  lemma InversePair(x: int, p: int)
    requires IsPrime(p) && 1 < x < p - 1 && 1 % p != 0
    ensures 1 < Partner(x, 1, p) < p - 1 && Partner(x, 1, p) != x
  {
    hide IsPrime, Partner;
    var y := Partner(x, 1, p);
    ModSmall(1, p);
    ModSmall(x, p);
    if y == x { OnlyTwoRoots(x, p); }
    if y == p - 1 {
      TimesMinusOne(x, p);
      ModSmall(p - x, p);
    }
  }

  lemma TimesMinusOne(x: int, p: int)
    requires p > 0
    ensures (x * (p - 1)) % p == (p - x) % p
  {
    assert x * (p - 1) == -x + x * p;
    ModShift(x * (p - 1), -x, x, p);
    ModShift(-x, p - x, -1, p);
  }

  // Wilson's theorem: apart from 1 and -1, residues pair with inverses.
  lemma Wilson(p: int)
    requires OddPrime(p)
    ensures Prod(Range(p - 1)) % p == p - 1
  {
    ModSmall(1, p);
    ModSmall(p - 1, p);
    var s := Range(p - 1) - {1} - {p - 1};
    InversesPaired(p, s);
    PairProduct(s, 1, p);
    PowOne(|s| / 2);
    ProdRemove(Range(p - 1), 1);
    ProdRemove(Range(p - 1) - {1}, p - 1);
    LastTwo(Prod(s), p);
  }

  lemma LastTwo(u: int, p: int)
    requires p > 1 && u % p == 1
    ensures (1 * ((p - 1) * u)) % p == p - 1
  {
    ModSmall(1, p);
    ModSmall(p - 1, p);
    CongMul(p - 1, p - 1, u, 1, p);
  }

  lemma InversesPaired(p: int, s: set<int>)
    requires OddPrime(p) && s == Range(p - 1) - {1} - {p - 1} && 1 % p != 0
    ensures Paired(s, 1, p)
  {
    hide IsPrime, Partner;
    forall x | x in s ensures Partner(x, 1, p) in s && Partner(x, 1, p) != x {
      InversePair(x, p);
    }
  }

  // Euler's criterion.
  lemma EulerNonSquare(a: int, p: int)
    requires OddPrime(p) && a % p != 0 && !IsSquare(a, p)
    ensures Pow(a, (p - 1) / 2) % p == p - 1
  {
    AllPaired(a, p);
    PairProduct(Range(p - 1), a, p);
    Wilson(p);
  }

  lemma EulerSquare(a: int, p: int)
    requires OddPrime(p) && a % p != 0 && IsSquare(a, p)
    ensures Pow(a, (p - 1) / 2) % p == 1
  {
    var x :| 0 <= x < p && (x * x) % p == a % p;
    ModSmall(x, p);
    if x == 0 { ModSmall(0, p); }
    var h := (p - 1) / 2;
    CongPow(a, x * x, h, p);
    PowTwo(x);
    PowMul(x, 2, h);
    assert 2 * h == p - 1;
    Fermat(x, p);
  }

  lemma {:induction false} PowMinusOne(e: nat)
    ensures Pow(-1, e) == if e % 2 == 0 then 1 else -1
  {
    if e != 0 { PowMinusOne(e - 1); }
  }

  // For p = 3 mod 4 a square and its negative are never both squares.
  lemma OppositeNonSquare(a: int, p: int)
    requires OddPrime(p) && p % 4 == 3 && a % p != 0 && IsSquare(a, p)
    ensures !IsSquare(-a, p)
  {
    var h := (p - 1) / 2;
    PowMinusOne(h);
    hide Pow, IsPrime;
    if IsSquare(-a, p) {
      ModSmall(0, p);
      if (-a) % p == 0 { CongSub(0, 0, -a, 0, p); }
      EulerSquare(a, p);
      EulerSquare(-a, p);
      PowBase(-1, a, h);
      assert -1 * a == -a;
      ModSmall(1, p);
      CongAdd(Pow(a, h), 1, Pow(-a, h), 1, p);
      ModSmall(2, p);
    }
  }

  // --------------------------------------------------- a non-square exists

  ghost function Squares(n: nat, p: int): (s: set<int>)
    requires p > 0
    ensures |s| <= n
    ensures forall x :: 1 <= x <= n ==> (x * x) % p in s
  {
    if n == 0 then {} else Squares(n - 1, p) + {(n * n) % p}
  }

  lemma {:induction false} SubsetSize(s: set<int>, t: set<int>)
    requires s <= t
    ensures |s| <= |t|
  {
    if s != {} {
      var x := Pick(s);
      SubsetSize(s - {x}, t - {x});
    }
  }

  lemma SquareIsListed(a: int, p: int)
    requires OddPrime(p) && 0 < a < p && IsSquare(a, p)
    ensures a in Squares((p - 1) / 2, p)
  {
    hide Squares, IsPrime;
    var x :| 0 <= x < p && (x * x) % p == a % p;
    ModSmall(a, p);
    ModSmall(0, p);
    if x > (p - 1) / 2 { Mirror(x, p); }
  }

  lemma Mirror(x: int, p: int)
    requires p > 0
    ensures ((p - x) * (p - x)) % p == (x * x) % p
  {
    assert (p - x) * (p - x) == x * x + (p - 2 * x) * p;
    ModShift((p - x) * (p - x), x * x, p - 2 * x, p);
  }

  lemma NonSquareExists(p: int) returns (a: int)
    requires OddPrime(p)
    ensures 1 < a < p && !IsSquare(a, p)
  {
    var s, t := Range(p - 1), Squares((p - 1) / 2, p);
    if s <= t { SubsetSize(s, t); }
    a := Pick(s - t);
    if IsSquare(a, p) { SquareIsListed(a, p); }
    assert (1 * 1) % p == 1 % p;
    assert p > 2;
  }
}
