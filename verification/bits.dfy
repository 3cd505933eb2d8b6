/** Bitwise operators of C on natural numbers, bit by bit. */
module Bits {
  import opened Numbers

  function BitAnd(x: nat, y: nat): nat {
    if x == 0 || y == 0 then 0
    else 2 * BitAnd(x / 2, y / 2) + (if x % 2 == 1 && y % 2 == 1 then 1 else 0)
  }

  function BitOr(x: nat, y: nat): nat
    decreases x + y
  {
    if x == 0 then y else if y == 0 then x
    else 2 * BitOr(x / 2, y / 2) + (if x % 2 == 1 || y % 2 == 1 then 1 else 0)
  }

  function BitXor(x: nat, y: nat): nat
    decreases x + y
  {
    if x == 0 then y else if y == 0 then x
    else 2 * BitXor(x / 2, y / 2) + (if x % 2 != y % 2 then 1 else 0)
  }

  // Masking with k ones keeps the low k bits.
  lemma {:induction false} AndOnes(x: nat, k: nat)
    ensures Pow(2, k) > 0
    ensures BitAnd(x, Pow(2, k) - 1) == x % Pow(2, k)
  {
    PowPositive(2, k);
    if k == 0 {
    } else if x != 0 {
      PowPositive(2, k - 1);
      AndOnes(x / 2, k - 1);
      var h := Pow(2, k - 1);
      HalfMod(x, h);
    }
  }

  lemma HalfMod(x: nat, h: int)
    requires h > 0
    ensures x % (2 * h) == 2 * ((x / 2) % h) + x % 2
  {
    var q, r := (x / 2) / h, (x / 2) % h;
    assert x / 2 == h * q + r;
    assert x == (2 * h) * q + (2 * r + x % 2);
    DivModUnique(x, 2 * h, q, 2 * r + x % 2);
  }

  lemma {:induction false} XorZero(x: nat, y: nat)
    ensures BitXor(x, y) == 0 <==> x == y
    decreases x + y
  {
    if x != 0 && y != 0 { XorZero(x / 2, y / 2); }
  }

  lemma {:induction false} OrZero(x: nat, y: nat)
    ensures BitOr(x, y) == 0 <==> x == 0 && y == 0
    decreases x + y
  {
    if x != 0 && y != 0 { OrZero(x / 2, y / 2); }
  }

  lemma {:induction false} OrBothWays(x: nat, y: nat)
    ensures BitOr(x, y) == BitOr(y, x)
    decreases x + y
  {
    if x != 0 && y != 0 { OrBothWays(x / 2, y / 2); }
  }

  lemma {:induction false} BitBounds(x: nat, y: nat, k: nat)
    requires x < Pow(2, k) && y < Pow(2, k)
    ensures BitAnd(x, y) < Pow(2, k) && BitOr(x, y) < Pow(2, k) && BitXor(x, y) < Pow(2, k)
  {
    if k != 0 { BitBounds(x / 2, y / 2, k - 1); }
  }

  // Disjoint bits: or is addition.
  lemma {:induction false} OrDisjoint(hi: nat, lo: nat, k: nat)
    requires lo < Pow(2, k)
    ensures 0 <= hi * Pow(2, k)
    ensures BitOr(hi * Pow(2, k), lo) == hi * Pow(2, k) + lo
  {
    PowPositive(2, k);
    if k != 0 {
      PowPositive(2, k - 1);
      var h := hi * Pow(2, k - 1);
      assert hi * Pow(2, k) == 2 * h;
      OrDisjoint(hi, lo / 2, k - 1);
    }
  }

  lemma OrHalves(x: nat, y: nat)
    ensures BitOr(x, y) / 2 == BitOr(x / 2, y / 2)
    ensures BitOr(x, y) % 2 == if x % 2 == 1 || y % 2 == 1 then 1 else 0
  {
  }

  // The low bits of an or need only the low bits of its operands.
  lemma {:induction false} OrWraps(x: nat, y: nat, k: nat)
    requires y < Pow(2, k)
    ensures Pow(2, k) > 0 && 0 <= x % Pow(2, k)
    ensures BitOr(x % Pow(2, k), y) == BitOr(x, y) % Pow(2, k)
  {
    PowPositive(2, k);
    if k > 0 {
      var h := Pow(2, k - 1);
      PowStep(2, k - 1);
      PowPositive(2, k - 1);
      OrWraps(x / 2, y / 2, k - 1);
      HalfMod(x, h);
      HalfMod(BitOr(x, y), h);
      OrHalves(x, y);
      OrHalves(x % (2 * h), y);
    }
  }

  // A mask with its low k bits clear sees only what lies above them.
  lemma {:induction false} AndHigh(x: nat, m: nat, k: nat)
    ensures Pow(2, k) > 0 && 0 <= m * Pow(2, k) && 0 <= x / Pow(2, k)
    ensures BitAnd(x, m * Pow(2, k)) == 0 <==> BitAnd(x / Pow(2, k), m) == 0
  {
    PowPositive(2, k);
    if k != 0 {
      PowPositive(2, k - 1);
      var h := m * Pow(2, k - 1);
      assert m * Pow(2, k) == 2 * h;
      AndHigh(x / 2, m, k - 1);
      HalfDiv(x, Pow(2, k - 1));
    }
  }

  lemma HalfDiv(x: nat, h: int)
    requires h > 0
    ensures x / (2 * h) == (x / 2) / h
  {
    var q, r := (x / 2) / h, (x / 2) % h;
    assert x / 2 == h * q + r;
    assert x == (2 * h) * q + (2 * r + x % 2);
    DivModUnique(x, 2 * h, q, 2 * r + x % 2);
  }
}
