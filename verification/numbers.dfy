/** Integer powers, residues and primes: the number theory the P-256 code and
    the BIG square root rely on. Two integers are congruent modulo m exactly
    when their `%` remainders are equal, so congruences chain like equalities. */
module Numbers {
  type Byte = x: int | 0 <= x < 256

  const B := 0x1_0000_0000

  // ---------------------------------------------------------------- powers

  function Pow(b: int, e: nat): int {
    if e == 0 then 1 else b * Pow(b, e - 1)
  }

  lemma PowStep(b: int, n: nat)
    ensures Pow(b, n + 1) == b * Pow(b, n)
  {
  }

  lemma PowTwo(b: int)
    ensures Pow(b, 1) == b && Pow(b, 2) == b * b
  {
    assert Pow(b, 1) == b * Pow(b, 0);
  }

  lemma PowPositive(b: int, e: nat)
    requires b > 0
    ensures Pow(b, e) > 0
  {
  }

  lemma {:induction false} PowAdd(b: int, d: nat, e: nat)
    ensures Pow(b, d + e) == Pow(b, d) * Pow(b, e)
  {
    if d != 0 {
      PowAdd(b, d - 1, e);
      MulAssoc(b, Pow(b, d - 1), Pow(b, e));
    }
  }

  function Two(k: nat): (p: nat)
    ensures p > 0
  {
    PowPositive(2, k);
    Pow(2, k)
  }

  lemma TwoAdd(d: nat, e: nat)
    ensures Two(d + e) == Two(d) * Two(e)
  {
    PowAdd(2, d, e);
  }

  lemma Pow2At8()
    ensures Pow(2, 8) == 256
  {
    assert Pow(2, 4) == 16;
    PowAdd(2, 4, 4);
  }

  lemma Pow2At32()
    ensures Pow(2, 32) == 0x1_0000_0000
  {
    assert Pow(2, 4) == 16;
    PowAdd(2, 4, 4);
    PowAdd(2, 8, 8);
    PowAdd(2, 16, 16);
  }

  lemma {:induction false} PowMul(b: int, d: nat, e: nat)
    ensures 0 <= d * e
    ensures Pow(Pow(b, d), e) == Pow(b, d * e)
  {
    if e != 0 {
      PowMul(b, d, e - 1);
      assert d * e == d + d * (e - 1);
      PowAdd(b, d, d * (e - 1));
    }
  }

  lemma {:induction false} PowBase(a: int, b: int, e: nat)
    ensures Pow(a * b, e) == Pow(a, e) * Pow(b, e)
  {
    if e != 0 {
      PowBase(a, b, e - 1);
      var x, y := Pow(a, e - 1), Pow(b, e - 1);
      assert (a * b) * (x * y) == (a * x) * (b * y) by { MulSwap(a, b, x, y); }
    }
  }

  lemma {:induction false} PowMonotone(b: int, d: nat, e: nat)
    requires b > 0 && d <= e
    ensures 0 < Pow(b, d) <= Pow(b, e)
    decreases e - d
  {
    PowPositive(b, d);
    if d < e {
      PowMonotone(b, d, e - 1);
      MulLe(1, b, Pow(b, e - 1));
    }
  }

  function Product(s: seq<int>): int {
    if s == [] then 1 else s[0] * Product(s[1..])
  }

  /** b^n once more, as the product of n equal factors. The verifier computes
      `Pow` outright when its arguments are constants; this form stays a symbol,
      which keeps numbers like 2^256 out of the non-linear reasoning. */
  ghost function Power(b: int, n: nat): int {
    Product(seq(n, i => b))
  }

  lemma PowerStep(b: int, n: nat)
    ensures Power(b, 0) == 1
    ensures Power(b, n + 1) == b * Power(b, n)
  {
    assert seq(n + 1, i => b)[1..] == seq(n, i => b);
  }

  lemma {:induction false} PowerPositive(b: int, n: nat)
    requires b > 0
    ensures Power(b, n) > 0
  {
    if n != 0 {
      PowerStep(b, n - 1);
      PowerPositive(b, n - 1);
    }
  }

  lemma {:induction false} PowerIsPow(b: int, n: nat)
    ensures Power(b, n) == Pow(b, n)
  {
    if n != 0 {
      PowerStep(b, n - 1);
      PowerIsPow(b, n - 1);
    }
  }

  lemma MulAssoc(a: int, b: int, c: int)
    ensures (a * b) * c == a * (b * c)
  {
  }

  lemma MulSwap(a: int, b: int, c: int, d: int)
    ensures (a * b) * (c * d) == (a * c) * (b * d)
  {
    assert (a * b) * (c * d) == a * (b * (c * d));
    assert (a * c) * (b * d) == a * (c * (b * d));
    assert b * (c * d) == c * (b * d);
  }

  lemma MulLe(a: int, b: int, c: int)
    requires a <= b && 0 <= c
    ensures a * c <= b * c
  {
  }

  // ---------------------------------------------------------- congruences

  lemma DivMod(a: int, m: int)
    requires m > 0
    ensures a == m * (a / m) + a % m && 0 <= a % m < m
  {
  }

  lemma SmallMultiple(t: int, m: int)
    requires m > 0 && -m < m * t < m
    ensures t == 0
  {
    if t >= 1 {
      MulLe(1, t, m);
    } else if t <= -1 {
      MulLe(t, -1, m);
    }
  }

  // The quotient and remainder are the only pair that fits.
  lemma DivModUnique(a: int, m: int, q: int, r: int)
    requires m > 0 && a == m * q + r && 0 <= r < m
    ensures q == a / m && r == a % m
  {
    DivMod(a, m);
    assert m * (q - a / m) == a % m - r;
    SmallMultiple(q - a / m, m);
  }

  lemma ModShift(a: int, b: int, k: int, m: int)
    requires m > 0 && a == b + k * m
    ensures a % m == b % m
  {
    DivMod(b, m);
    assert a == m * (b / m + k) + b % m;
    DivModUnique(a, m, b / m + k, b % m);
  }

  lemma ModQuotient(a: int, b: int, m: int) returns (k: int)
    requires m > 0 && a % m == b % m
    ensures a == b + k * m
  {
    DivMod(a, m);
    DivMod(b, m);
    k := a / m - b / m;
    assert k * m == m * (a / m) - m * (b / m);
  }

  lemma CongAdd(a: int, a': int, b: int, b': int, m: int)
    requires m > 0 && a % m == a' % m && b % m == b' % m
    ensures (a + b) % m == (a' + b') % m
  {
    var k := ModQuotient(a, a', m);
    var l := ModQuotient(b, b', m);
    assert (k + l) * m == k * m + l * m;
    ModShift(a + b, a' + b', k + l, m);
  }

  lemma CongSub(a: int, a': int, b: int, b': int, m: int)
    requires m > 0 && a % m == a' % m && b % m == b' % m
    ensures (a - b) % m == (a' - b') % m
  {
    var k := ModQuotient(a, a', m);
    var l := ModQuotient(b, b', m);
    assert (k - l) * m == k * m - l * m;
    ModShift(a - b, a' - b', k - l, m);
  }

  lemma CongMul(a: int, a': int, b: int, b': int, m: int)
    requires m > 0 && a % m == a' % m && b % m == b' % m
    ensures (a * b) % m == (a' * b') % m
  {
    var k := ModQuotient(a, a', m);
    var l := ModQuotient(b, b', m);
    var u, v := k * m, l * m;
    assert a * b == a' * b' + a' * v + u * b ;
    assert a' * v == (a' * l) * m;
    assert u * b == (k * b) * m;
    assert (a' * l + k * b) * m == (a' * l) * m + (k * b) * m;
    ModShift(a * b, a' * b', a' * l + k * b, m);
  }

  lemma ModMod(a: int, m: int)
    requires m > 0
    ensures (a % m) % m == a % m
  {
    DivModUnique(a % m, m, 0, a % m);
  }

  lemma ModSmall(a: int, m: int)
    requires 0 <= a < m
    ensures a % m == a
  {
    DivModUnique(a, m, 0, a);
  }

  lemma DivDiv(a: nat, m: int, n: int)
    requires m > 0 && n > 0
    ensures m * n > 0 && a / m >= 0
    ensures a / m / n == a / (m * n)
  {
    DivMod(a, m);
    var q := a / m;
    if q < 0 { MulLe(q, -1, m); }
    DivMod(q, n);
    var t, r, u := a / m / n, (a / m) % n, a % m;
    assert m * (n * t + r) == (m * n) * t + m * r;
    MulLe(r, n - 1, m);
    MulLe(0, r, m);
    MulLe(1, n, m);
    assert m * (n - 1) == m * n - m;
    DivModUnique(a, m * n, t, m * r + u);
  }

  // A product may be reduced factor by factor.
  lemma ModMul(a: int, b: int, m: int)
    requires m > 0
    ensures ((a % m) * b) % m == (a * b) % m == (a * (b % m)) % m == ((a % m) * (b % m)) % m
  {
    ModMod(a, m);
    ModMod(b, m);
    CongMul(a % m, a, b, b, m);
    CongMul(a, a, b % m, b, m);
    CongMul(a % m, a, b % m, b, m);
  }

  lemma {:induction false} CongPow(a: int, b: int, e: nat, m: int)
    requires m > 0 && a % m == b % m
    ensures Pow(a, e) % m == Pow(b, e) % m
  {
    if e != 0 {
      CongPow(a, b, e - 1, m);
      CongMul(a, b, Pow(a, e - 1), Pow(b, e - 1), m);
    }
  }

  lemma {:induction false} PowOne(e: nat)
    ensures Pow(1, e) == 1
  {
    if e != 0 { PowOne(e - 1); }
  }

  // Residue arithmetic, under names of its own so that long straight-line
  // computations can be followed without unfolding every product.
  ghost function FMul(a: int, b: int, p: int): int
    requires p > 0
  {
    (a * b) % p
  }

  ghost function FAdd(a: int, b: int, p: int): int
    requires p > 0
  {
    (a + b) % p
  }

  ghost function FSub(a: int, b: int, p: int): int
    requires p > 0
  {
    (a - b) % p
  }

  // r is congruent to an integer expression for a product, sum or difference.
  lemma LiftMul(a: int, a': int, b: int, b': int, p: int)
    requires p > 0 && a % p == a' % p && b % p == b' % p
    ensures FMul(a, b, p) % p == (a' * b') % p
  {
    CongMul(a, a', b, b', p);
    ModMod(a * b, p);
  }

  lemma LiftAdd(a: int, a': int, b: int, b': int, p: int)
    requires p > 0 && a % p == a' % p && b % p == b' % p
    ensures FAdd(a, b, p) % p == (a' + b') % p
  {
    CongAdd(a, a', b, b', p);
    ModMod(a + b, p);
  }

  lemma LiftSub(a: int, a': int, b: int, b': int, p: int)
    requires p > 0 && a % p == a' % p && b % p == b' % p
    ensures FSub(a, b, p) % p == (a' - b') % p
  {
    CongSub(a, a', b, b', p);
    ModMod(a - b, p);
  }

  // ---------------------------------------------------------------- primes

  ghost predicate IsPrime(p: int) {
    p > 1 && forall d :: 1 < d < p ==> p % d != 0
  }

  // The inverse of a residue, read off the division p = (p/a)*a + p%a.
  ghost function Inverse(a: int, p: int): (r: int)
    requires IsPrime(p) && 0 < a < p
    ensures 0 <= r < p && (a * r) % p == 1
    decreases a
  {
    if a == 1 then
      ModSmall(1, p);
      1
    else
      DivMod(p, a);
      var s := Inverse(p % a, p);
      InverseStep(a, p, s);
      (-(p / a) * s) % p
  }

  lemma InverseStep(a: int, p: int, s: int)
    requires 0 < a < p && ((p % a) * s) % p == 1
    ensures (a * ((-(p / a) * s) % p)) % p == 1
  {
    var q := p / a;
    DivMod(p, a);
    calc {
      a * (-q * s);
      -(a * q) * s;
      (p % a - p) * s;
      (p % a) * s + (-s) * p;
    }
    ModShift(a * (-q * s), (p % a) * s, -s, p);
    ModMul(a, -q * s, p);
  }

  lemma {:induction false} InverseExists(a: int, p: int) returns (r: int)
    requires IsPrime(p) && a % p != 0
    ensures 0 < r < p && (a * r) % p == 1
  {
    DivMod(a, p);
    r := Inverse(a % p, p);
    ModMul(a, r, p);
    if r == 0 { ModSmall(0, p); assert false; }
  }

  // Euclid's lemma.
  lemma Euclid(a: int, b: int, p: int)
    requires IsPrime(p) && (a * b) % p == 0
    ensures a % p == 0 || b % p == 0
  {
    if a % p != 0 {
      var r := InverseExists(a, p);
      calc {
        b % p;
        { ModSmall(1, p); CongMul(1, a * r, b, b, p); }
        ((a * r) * b) % p;
        { assert (a * r) * b == r * (a * b); ModMul(r, a * b, p); }
        (r * ((a * b) % p)) % p;
        { ModSmall(0, p); }
        0;
      }
    }
  }

  // A common factor that is not zero modulo p may be cancelled.
  lemma Cancel(c: int, a: int, b: int, p: int)
    requires IsPrime(p) && c % p != 0 && (c * a) % p == (c * b) % p
    ensures a % p == b % p
  {
    CongSub(c * a, c * b, c * b, c * b, p);
    assert c * a - c * b == c * (a - b);
    ModSmall(0, p);
    Euclid(c, a - b, p);
    CongAdd(a - b, 0, b, b, p);
  }

  lemma {:induction false} PowNonzero(a: int, e: nat, p: int)
    requires IsPrime(p) && a % p != 0
    ensures Pow(a, e) % p != 0
  {
    if e == 0 {
      ModSmall(1, p);
    } else {
      PowNonzero(a, e - 1, p);
      if Pow(a, e) % p == 0 { Euclid(a, Pow(a, e - 1), p); }
    }
  }

  // -------------------------------------------- Fermat's little theorem

  ghost function Range(n: nat): (s: set<int>)
    ensures forall x :: x in s <==> 1 <= x <= n
    ensures |s| == n
  {
    if n == 0 then {} else Range(n - 1) + {n}
  }

  ghost function Pick<T>(s: set<T>): (x: T)
    requires s != {}
    ensures x in s
  {
    var x :| x in s;
    x
  }

  ghost function Prod(s: set<int>): int {
    if s == {} then 1 else Pick(s) * Prod(s - {Pick(s)})
  }

  // The product does not depend on the order of the factors.
  lemma {:induction false} ProdRemove(s: set<int>, y: int)
    requires y in s
    ensures Prod(s) == y * Prod(s - {y})
    decreases s
  {
    var x := Pick(s);
    if x != y {
      ProdRemove(s - {x}, y);
      ProdRemove(s - {y}, x);
      assert s - {x} - {y} == s - {y} - {x};
      var t := Prod(s - {x} - {y});
      assert x * (y * t) == y * (x * t);
    }
  }

  ghost function Scale(s: set<int>, a: int, p: int): set<int>
    requires p > 0
  {
    set x | x in s :: (a * x) % p
  }

  lemma ScaleInjective(x: int, y: int, a: int, p: int)
    requires IsPrime(p) && a % p != 0 && 0 <= x < p && 0 <= y < p
    requires (a * x) % p == (a * y) % p
    ensures x == y
  {
    Cancel(a, x, y, p);
    ModSmall(x, p);
    ModSmall(y, p);
  }

  // Taking x out of s takes a*x out of the scaled set, and nothing else.
  lemma ScaleRemove(s: set<int>, x: int, a: int, p: int)
    requires IsPrime(p) && a % p != 0 && x in s && forall y :: y in s ==> 0 <= y < p
    ensures (a * x) % p in Scale(s, a, p)
    ensures Scale(s, a, p) - {(a * x) % p} == Scale(s - {x}, a, p)
  {
    var ax := (a * x) % p;
    forall z | z in Scale(s, a, p) && z != ax ensures z in Scale(s - {x}, a, p) {
      var y :| y in s && z == (a * y) % p;
      assert y in s - {x};
    }
    forall z | z in Scale(s - {x}, a, p) ensures z in Scale(s, a, p) && z != ax {
      var y :| y in s - {x} && z == (a * y) % p;
      if z == ax { ScaleInjective(x, y, a, p); }
    }
  }

  // Multiplying every residue of s by a multiplies the product by a^|s|.
  lemma {:induction false} ProdScale(s: set<int>, a: int, p: int)
    requires IsPrime(p) && a % p != 0 && forall x :: x in s ==> 0 <= x < p
    ensures Prod(Scale(s, a, p)) % p == (Pow(a, |s|) * Prod(s)) % p
    decreases s
  {
    if s == {} {
      assert Scale(s, a, p) == {};
    } else {
      var x := Pick(s);
      var t := s - {x};
      ProdScale(t, a, p);
      ScaleRemove(s, x, a, p);
      ProdRemove(Scale(s, a, p), (a * x) % p);
      assert |s| == |t| + 1;
      ScaleFactor(a, x, Pow(a, |t|), Prod(t), Prod(Scale(t, a, p)), p);
    }
  }

  lemma ScaleFactor(a: int, x: int, w: int, v: int, u: int, p: int)
    requires p > 0 && u % p == (w * v) % p
    ensures (((a * x) % p) * u) % p == ((a * w) * (x * v)) % p
  {
    ModMod(a * x, p);
    CongMul((a * x) % p, a * x, u, w * v, p);
    MulSwap(a, x, w, v);
  }

  lemma ScaleInRange(a: int, x: int, p: int)
    requires IsPrime(p) && a % p != 0 && 0 < x < p
    ensures 0 < (a * x) % p < p
  {
    DivMod(a * x, p);
    if (a * x) % p == 0 { Euclid(a, x, p); ModSmall(x, p); }
  }

  // y is a times its quotient by a.
  lemma ScaleReaches(a: int, y: int, p: int) returns (x: int)
    requires IsPrime(p) && a % p != 0 && 0 < y < p
    ensures 0 < x < p && (a * x) % p == y
  {
    var r := InverseExists(a, p);
    x := (r * y) % p;
    ModMul(a, r * y, p);
    assert a * (r * y) == (a * r) * y;
    ModSmall(1, p);
    CongMul(a * r, 1, y, y, p);
    ModSmall(y, p);
    DivMod(r * y, p);
    if x == 0 { assert a * x == 0; ModSmall(0, p); }
  }

  // Multiplication by a permutes the non-zero residues.
  lemma ScaleRange(a: int, p: int)
    requires IsPrime(p) && a % p != 0
    ensures Scale(Range(p - 1), a, p) == Range(p - 1)
  {
    var s := Range(p - 1);
    forall x | x in s ensures (a * x) % p in s {
      ScaleInRange(a, x, p);
    }
    forall y | y in s ensures y in Scale(s, a, p) {
      var x := ScaleReaches(a, y, p);
      assert x in s;
    }
  }

  lemma {:induction false} ProdNonzero(s: set<int>, p: int)
    requires IsPrime(p) && forall x :: x in s ==> 0 < x < p
    ensures Prod(s) % p != 0
    decreases s
  {
    if s == {} {
      ModSmall(1, p);
    } else {
      var x := Pick(s);
      ProdNonzero(s - {x}, p);
      ModSmall(x, p);
      if Prod(s) % p == 0 { Euclid(x, Prod(s - {x}), p); }
    }
  }

  lemma CancelUnit(c: int, x: int, p: int)
    requires IsPrime(p) && c % p != 0 && (x * c) % p == c % p
    ensures x % p == 1
  {
    ModSmall(1, p);
    Cancel(c, x, 1, p);
  }

  // Fermat's little theorem.
  lemma Fermat(a: int, p: int)
    requires IsPrime(p) && a % p != 0
    ensures Pow(a, p - 1) % p == 1
  {
    var s := Range(p - 1);
    ProdScale(s, a, p);
    ScaleRange(a, p);
    ProdNonzero(s, p);
    ModSmall(1, p);
    CancelUnit(Prod(s), Pow(a, p - 1), p);
  }
}
