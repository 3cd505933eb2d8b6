/** Square roots modulo a prime by Tonelli and Shanks, after zen_big.c. The
    BIG operations stand for the integer operations they are specified as. */
module BigSqrt {
  import opened Numbers
  import opened Quadratic

  // BIG_modmul
  function MulMod(a: nat, b: nat, m: nat): (r: nat)
    requires m > 0
    ensures r < m && r == (a * b) % m
  {
    assert 0 <= a * b by { MulLe(0, a, b); }
    DivMod(a * b, m);
    (a * b) % m
  }

  // One squaring of the base against one halving of the exponent.
  lemma HalveExponent(x: int, e: nat)
    requires e > 1
    ensures Pow(x, e) == (if e % 2 == 1 then x else 1) * Pow(x * x, e / 2)
  {
    PowTwo(x);
    PowMul(x, 2, e / 2);
    if e % 2 == 1 { PowStep(x, e - 1); }
  }

  lemma PowerStepMod(z: nat, y: nat, e: nat, m: nat)
    requires m > 0 && e > 1
    ensures var z' := if e % 2 == 1 then MulMod(z, y, m) else z;
            (z' * Pow(MulMod(y, y, m), e / 2)) % m == (z * Pow(y, e)) % m
  {
    hide Pow;
    HalveExponent(y, e);
    var q := Pow(y * y, e / 2);
    ModMod(y * y, m);
    CongPow(MulMod(y, y, m), y * y, e / 2, m);
    var z' := if e % 2 == 1 then MulMod(z, y, m) else z;
    var f := if e % 2 == 1 then y else 1;
    ModMod(z * y, m);
    assert (z * f) * q == z * (f * q);
    CongMul(z', z * f, Pow(MulMod(y, y, m), e / 2), q, m);
  }

  // x^n mod m; the empty power is 1 even for m = 1.
  method SquareAndMultiply(x: nat, n: nat, m: nat) returns (z: nat)
    requires m > 0
    ensures n > 0 ==> z == Pow(x, n) % m
    ensures n == 0 ==> z == 1
  {
    hide Pow;
    z := 1;
    if n != 0 {
      var safen, powerx := n, x;
      while safen > 1
        invariant safen >= 1
        invariant (z * Pow(powerx, safen)) % m == Pow(x, n) % m
      {
        PowerStepMod(z, powerx, safen, m);
        if safen % 2 == 1 {
          z := MulMod(z, powerx, m);
        }
        powerx := MulMod(powerx, powerx, m);
        safen := safen / 2;
      }
      PowTwo(powerx);
      z := MulMod(z, powerx, m);
    }
  }

  // ------------------------------------------------------ repeated squaring

  ghost function Squared(x: int, k: nat, p: int): (r: int)
    requires p > 0
  {
    if k == 0 then x % p else var s := Squared(x, k - 1, p); (s * s) % p
  }

  lemma {:induction false} SquaredPow(x: int, k: nat, p: int)
    requires p > 0
    ensures Squared(x, k, p) == Pow(x, Two(k)) % p
  {
    if k == 0 {
      PowTwo(x);
    } else {
      SquaredPow(x, k - 1, p);
      var e := Two(k - 1);
      PowAdd(x, e, e);
      ModMul(Pow(x, e), Pow(x, e), p);
    }
  }

  lemma {:induction false} SquaredAgain(x: int, j: nat, k: nat, p: int)
    requires p > 0
    ensures Squared(Squared(x, j, p), k, p) == Squared(x, j + k, p)
  {
    if k == 0 {
      SquaredRange(x, j, p);
    } else {
      SquaredAgain(x, j, k - 1, p);
    }
  }

  lemma SquaredRange(x: int, k: nat, p: int)
    requires p > 0
    ensures 0 <= Squared(x, k, p) < p && Squared(x, k, p) % p == Squared(x, k, p)
  {
    if k == 0 { ModMod(x, p); } else {
      var s := Squared(x, k - 1, p);
      ModMod(s * s, p);
    }
  }

  lemma {:induction false} SquaredMul(x: int, y: int, k: nat, p: int)
    requires p > 0
    ensures Squared((x * y) % p, k, p) == (Squared(x, k, p) * Squared(y, k, p)) % p
  {
    if k == 0 {
      ModMod(x * y, p);
      ModMul(x, y, p);
    } else {
      SquaredMul(x, y, k - 1, p);
      var s, t := Squared(x, k - 1, p), Squared(y, k - 1, p);
      MulSwap(s, t, s, t);
      ModMul(s * t, s * t, p);
      ModMul(s * s, t * t, p);
    }
  }

  // --------------------------------------------------- what is true of steps

  // p = 3 mod 4: one power gives the root.
  lemma RootByPower(n: nat, p: nat)
    requires OddPrime(p) && p % 4 == 3 && IsSquare(n, p)
    ensures var r := Pow(n, (p + 1) / 4) % p; 0 <= r < p && (r * r) % p == n % p
  {
    hide Pow, IsSquare, IsPrime;
    var e := (p + 1) / 4;
    var w := Pow(n, e);
    DivMod(w, p);
    ModMul(w, w, p);
    PowAdd(n, e, e);
    var h := (p - 1) / 2;
    PowStep(n, h);
    if n % p == 0 {
      CongMul(n, 0, Pow(n, h), Pow(n, h), p);
      ModSmall(0, p);
    } else {
      EulerSquare(n, p);
      ModSmall(1, p);
      CongMul(n, n, Pow(n, h), 1, p);
    }
  }

  // Writing n^e for the residues the loop starts from.
  lemma StartValues(n: nat, z: nat, p: nat, q: nat, s: nat)
    requires OddPrime(p) && s > 0 && p - 1 == q * Two(s) && q % 2 == 1
    requires z % p != 0 && !IsSquare(z, p) && n % p != 0 && IsSquare(n, p)
    ensures Squared(Pow(z, q) % p, s - 1, p) == p - 1
    ensures Squared(Pow(n, q) % p, s - 1, p) == 1
  {
    hide Pow, IsSquare, IsPrime, Squared;
    HalfOfOrder(p, q, s);
    EulerNonSquare(z, p);
    EulerSquare(n, p);
    PowSquared(z, q, s - 1, p);
    PowSquared(n, q, s - 1, p);
  }

  lemma HalfOfOrder(p: nat, q: nat, s: nat)
    requires s > 0 && p - 1 == q * Two(s)
    ensures (p - 1) / 2 == q * Two(s - 1)
  {
    PowStep(2, s - 1);
    assert q * (2 * Two(s - 1)) == 2 * (q * Two(s - 1));
  }

  lemma PowSquared(x: int, q: nat, k: nat, p: int)
    requires p > 0
    ensures 0 <= q * Two(k)
    ensures Squared(Pow(x, q) % p, k, p) == Pow(x, q * Two(k)) % p
  {
    hide Pow, Squared, Two;
    SquaredPow(Pow(x, q) % p, k, p);
    ModMod(Pow(x, q), p);
    CongPow(Pow(x, q) % p, Pow(x, q), Two(k), p);
    PowMul(x, q, Two(k));
  }

  // R^2 = t n at the start.
  lemma StartRoot(n: nat, p: nat, q: nat)
    requires p > 0 && q % 2 == 1
    ensures var r, t := Pow(n, (q + 1) / 2) % p, Pow(n, q) % p; (r * r) % p == (t * n) % p
  {
    hide Pow;
    var h := (q + 1) / 2;
    assert h + h == q + 1;
    var w := Pow(n, h);
    PowAdd(n, h, h);
    PowStep(n, q);
    SquareOfResidue(w, n, Pow(n, q), p);
  }

  lemma SquareOfResidue(w: int, n: int, t: int, p: int)
    requires p > 0 && w * w == n * t
    ensures ((w % p) * (w % p)) % p == ((t % p) * n) % p
  {
    ModMul(w, w, p);
    ModMul(t, n, p);
  }

  // What one turn of the main loop keeps: R^2 = t n, c is a root of -1 and t
  // of 1 under M - 1 squarings.
  ghost predicate Keeps(R: nat, t: nat, c: nat, M: nat, n: nat, p: nat)
    requires p > 0
  {
    && R < p && t < p && c < p && M > 0
    && (R * R) % p == (t * n) % p
    && Squared(c, M - 1, p) == p - 1 && Squared(t, M - 1, p) == 1
  }

  lemma KeepsParts(R: nat, t: nat, c: nat, M: nat, n: nat, p: nat)
    requires p > 0 && Keeps(R, t, c, M, n, p)
    ensures R < p && t < p && c < p && M > 0 && Squared(t, M - 1, p) == 1
    ensures t == 1 ==> (R * R) % p == n % p
  {
  }

  lemma Start(n: nat, z: nat, p: nat, q: nat, s: nat)
    requires OddPrime(p) && IsSquare(n, p) && z % p != 0 && !IsSquare(z, p)
    requires s > 0 && p - 1 == q * Two(s) && q % 2 == 1
    ensures var R, t, c := Pow(n, (q + 1) / 2) % p, Pow(n, q) % p, Pow(z, q) % p;
            0 <= R && 0 <= t && 0 <= c && (if t == 0 then n % p == 0 else Keeps(R, t, c, s, n, p))
  {
    hide Pow, IsSquare, IsPrime, Squared;
    if n % p == 0 {
      PowStep(n, q - 1);
      CongMul(n, 0, Pow(n, q - 1), Pow(n, q - 1), p);
      ModSmall(0, p);
    } else {
      PowNonzero(n, q, p);
      StartValues(n, z, p, q, s);
      StartRoot(n, p, q);
    }
  }

  lemma TurnKeeps(R: nat, t: nat, c: nat, M: nat, n: nat, p: nat, i: nat)
    requires OddPrime(p) && Keeps(R, t, c, M, n, p)
    requires 0 < i < M && Squared(t, i, p) == 1 && Squared(t, i - 1, p) != 1
    ensures 0 <= Squared(c, M - i - 1, p)
    ensures var b := Squared(c, M - i - 1, p); var c' := MulMod(b, b, p);
            Keeps(MulMod(R, b, p), MulMod(t, c', p), c', i, n, p)
  {
    hide Squared, IsPrime;
    var b := Squared(c, M - i - 1, p);
    SquaredRange(c, M - i - 1, p);
    var c' := MulMod(b, b, p);
    NextSquared(c, M - i - 1, p);
    SquaredAgain(c, M - i, i - 1, p);
    MinusOne(t, i, p);
    SquaredMul(t, c', i - 1, p);
    assert (p - 1) * (p - 1) == 1 + (p - 2) * p;
    ModShift((p - 1) * (p - 1), 1, p - 2, p);
    ModSmall(1, p);
    RootTurn(R, t, b, n, p);
  }

  lemma NextSquared(c: int, k: nat, p: int)
    requires p > 0
    ensures var b := Squared(c, k, p); Squared(c, k + 1, p) == (b * b) % p
  {
  }

  // The last value before 1 in a chain of squarings is -1.
  lemma MinusOne(t: int, i: nat, p: int)
    requires OddPrime(p) && i > 0 && Squared(t, i, p) == 1 && Squared(t, i - 1, p) != 1
    ensures Squared(t, i - 1, p) == p - 1
  {
    SquaredRange(t, i - 1, p);
    NextSquared(t, i - 1, p);
    OnlyTwoRoots(Squared(t, i - 1, p), p);
  }

  lemma RootTurn(R: nat, t: nat, b: nat, n: nat, p: nat)
    requires p > 0 && (R * R) % p == (t * n) % p
    ensures var R' := MulMod(R, b, p); var t' := MulMod(t, MulMod(b, b, p), p); (R' * R') % p == (t' * n) % p
  {
    ModMul(R * b, R * b, p);
    MulSwap(R, b, R, b);
    CongMul(R * R, t * n, b * b, b * b, p);
    MulSwap(t, n, b * b, 1);
    assert (t * n) * (b * b) == (t * (b * b)) * n;
    ModMul(t, b * b, p);
    ModMul(t * (b * b), n, p);
  }

  // ---------------------------------------------------------- the algorithm

  // p - 1 = Q 2^S with Q odd.
  method SplitOrder(p: nat) returns (Q: nat, S: nat)
    requires p > 1
    ensures Q % 2 == 1 && p - 1 == Q * Two(S) && (p % 2 == 1 ==> S > 0)
  {
    Q, S := p - 1, 0;
    while Q % 2 == 0
      invariant Q > 0 && p - 1 == Q * Two(S)
      invariant p % 2 == 1 ==> S > 0 || Q % 2 == 0
      decreases Q
    {
      PowStep(2, S);
      assert (2 * (Q / 2)) * Two(S) == (Q / 2) * (2 * Two(S));
      Q := Q / 2;
      S := S + 1;
    }
  }

  // The first z from 2 on that is not a square.
  method FindNonSquare(p: nat) returns (z: nat)
    requires OddPrime(p)
    ensures 1 < z < p && z % p != 0 && !IsSquare(z, p)
  {
    hide IsSquare, IsPrime;
    ghost var w := NonSquareExists(p);
    z := 2;
    ModSmall(2, p);
    while Jacobi(z, p) == 1
      invariant 1 < z <= w
      decreases w - z
    {
      ModSmall(z, p);
      z := z + 1;
    }
    ModSmall(z, p);
  }

  // How many squarings take t to 1, at least one being made.
  method CountSquarings(t: nat, p: nat, ghost M: nat) returns (i: nat)
    requires p > 1 && t < p && t != 1 && M > 0 && Squared(t, M - 1, p) == 1
    ensures 0 < i < M && Squared(t, i, p) == 1 && Squared(t, i - 1, p) != 1
  {
    hide Squared;
    ModSmall(t, p);
    NotSquared(t, p);
    var T := MulMod(t, t, p);
    NextSquared(t, 0, p);
    i := 1;
    while T != 1
      invariant 0 < i < M && T == Squared(t, i, p) && Squared(t, i - 1, p) != 1
      decreases M - i
    {
      NextSquared(t, i, p);
      T := MulMod(T, T, p);
      i := i + 1;
    }
  }

  lemma NotSquared(t: int, p: int)
    requires p > 0
    ensures Squared(t, 0, p) == t % p
  {
  }

  lemma OddPrimeSize(p: int)
    requires OddPrime(p)
    ensures p > 2
  {
  }

  // The main loop.
  method Refine(n: nat, p: nat, R0: nat, t0: nat, c0: nat, M0: nat) returns (R: nat)
    requires OddPrime(p) && Keeps(R0, t0, c0, M0, n, p)
    ensures R < p && (R * R) % p == n % p
  {
    hide Pow, IsSquare, IsPrime, Squared, Keeps;
    OddPrimeSize(p);
    var t, c, M := t0, c0, M0;
    R := R0;
    while t != 1
      invariant Keeps(R, t, c, M, n, p)
      decreases M
    {
      KeepsParts(R, t, c, M, n, p);
      var i := CountSquarings(t, p, M);
      TurnKeeps(R, t, c, M, n, p, i);
      var b := SquareTimes(c, M - i - 1, p);
      M := i;
      c := MulMod(b, b, p);
      t := MulMod(t, c, p);
      R := MulMod(R, b, p);
    }
    KeepsParts(R, t, c, M, n, p);
  }

  method SquareTimes(c: nat, k: nat, p: nat) returns (b: nat)
    requires c < p
    ensures b == Squared(c, k, p)
  {
    hide Squared;
    b := c;
    NotSquared(c, p);
    ModSmall(c, p);
    for j := 0 to k
      invariant b == Squared(c, j, p) && b < p
    {
      NextSquared(c, j, p);
      b := MulMod(b, b, p);
    }
  }

  method ModSqrt(n: nat, p: nat) returns (r: nat)
    requires OddPrime(p) && IsSquare(n, p)
    ensures r < p && (r * r) % p == n % p
  {
    hide Pow, IsSquare, IsPrime, Squared, Keeps;
    OddPrimeSize(p);
    if p % 4 != 1 {
      r := SquareAndMultiply(n, (p + 1) / 4, p);
      RootByPower(n, p);
      return;
    }
    var Q, S := SplitOrder(p);
    var z := FindNonSquare(p);
    var M := S;
    var c := SquareAndMultiply(z, Q, p);
    var t := SquareAndMultiply(n, Q, p);
    var R := SquareAndMultiply(n, (Q + 1) / 2, p);
    Start(n, z, p, Q, S);
    if t == 0 {
      ModSmall(0, p);
      return 0;
    }
    r := Refine(n, p, R, t, c, M);
  }
}
