/** The field of 1024 elements as polynomials over GF(2) modulo
    z^10 + z^8 + z^5 + z + 1, in which the powers of z come back to 1 after 1023
    steps and not before. */
module Field1024 {
  import opened Numbers
  import opened Polymod

  const FIELD: bv32 := 1024

  // v times z
  function Turn(v: bv32): bv32 {
    Xor(Up(v), Pick(v, 0x200, 0x123))
  }

  function Up(v: bv32): bv32 {
    (v & 0x1FF) << 1
  }

  function Pick(v: bv32, bit: bv32, c: bv32): bv32 {
    if Has(v, bit) then c else 0
  }

  predicate Has(v: bv32, bit: bv32) {
    v & bit != 0
  }

  function Turns(k: nat, v: bv32): bv32 {
    if k == 0 then v else Turn(Turns(k - 1, v))
  }

  lemma HasXorLow(x: bv32, y: bv32, bit: bv32)
    requires LowBit(bit)
    ensures Has(Xor(x, y), bit) <==> Has(x, bit) != Has(y, bit)
  {
  }

  lemma HasXorHigh(x: bv32, y: bv32, bit: bv32)
    requires HighBit(bit)
    ensures Has(Xor(x, y), bit) <==> Has(x, bit) != Has(y, bit)
  {
  }

  ghost predicate LowBit(bit: bv32) {
    bit == 1 || bit == 2 || bit == 4 || bit == 8 || bit == 16
  }

  ghost predicate HighBit(bit: bv32) {
    bit == 32 || bit == 64 || bit == 128 || bit == 256 || bit == 512
  }

  lemma PickLinear(x: bv32, y: bv32, bit: bv32, c: bv32)
    requires LowBit(bit) || HighBit(bit)
    ensures Pick(Xor(x, y), bit, c) == Xor(Pick(x, bit, c), Pick(y, bit, c))
  {
    hide Xor, Has;
    if LowBit(bit) { HasXorLow(x, y, bit); } else { HasXorHigh(x, y, bit); }
    XorLaws(c, 0);
    XorLaws(0, 0);
  }

  lemma UpLinear(x: bv32, y: bv32)
    ensures Up(Xor(x, y)) == Xor(Up(x), Up(y))
  {
  }

  lemma TurnLinear(x: bv32, y: bv32)
    ensures Turn(Xor(x, y)) == Xor(Turn(x), Turn(y))
  {
    hide Xor, Up, Pick;
    UpLinear(x, y);
    PickLinear(x, y, 0x200, 0x123);
    XorSwap(Up(x), Up(y), Pick(x, 0x200, 0x123), Pick(y, 0x200, 0x123));
  }

  lemma TurnBound(v: bv32)
    ensures Turn(v) < FIELD && (v < FIELD && Turn(v) == 0 ==> v == 0) && Turn(0) == 0
  {
  }

  lemma {:induction false} TurnsLinear(k: nat, x: bv32, y: bv32)
    ensures Turns(k, Xor(x, y)) == Xor(Turns(k, x), Turns(k, y))
  {
    hide Xor, Turn;
    if k > 0 {
      TurnsLinear(k - 1, x, y);
      TurnLinear(Turns(k - 1, x), Turns(k - 1, y));
    }
  }

  lemma {:induction false} TurnsAdd(j: nat, k: nat, v: bv32)
    ensures Turns(k, Turns(j, v)) == Turns(j + k, v)
  {
    hide Turn;
    if k > 0 { TurnsAdd(j, k - 1, v); }
  }

  lemma {:induction false} TurnsBound(k: nat, v: bv32)
    requires v < FIELD
    ensures Turns(k, v) < FIELD && (Turns(k, v) == 0 <==> v == 0)
  {
    hide Turn;
    if k > 0 {
      TurnsBound(k - 1, v);
      TurnBound(Turns(k - 1, v));
    }
  }

  lemma TurnsInjective(k: nat, x: bv32, y: bv32)
    requires x < FIELD && y < FIELD && Turns(k, x) == Turns(k, y)
    ensures x == y
  {
    hide Xor, Turns;
    TurnsLinear(k, x, y);
    XorLaws(Turns(k, x), Turns(k, y));
    FieldXor(x, y);
    TurnsBound(k, Xor(x, y));
    XorLaws(x, y);
  }

  lemma FieldXor(x: bv32, y: bv32)
    requires x < FIELD && y < FIELD
    ensures Xor(x, y) < FIELD
  {
  }

  // ----------------------------------------------------------------- products

  // v times c, the sum of the c z^i for the bits i of v.
  function Times(v: bv32, c: bv32): bv32 {
    Xor(Quarter(v, c, 1, 2, 4, 8), Xor(Quarter(v, Turns(4, c), 16, 32, 64, 128), Pair(v, Turns(8, c), 256, 512)))
  }

  function Pair(v: bv32, c: bv32, b0: bv32, b1: bv32): bv32 {
    Xor(Pick(v, b0, c), Pick(v, b1, Turn(c)))
  }

  function Quarter(v: bv32, c: bv32, b0: bv32, b1: bv32, b2: bv32, b3: bv32): bv32 {
    Xor(Pair(v, c, b0, b1), Pair(v, Turns(2, c), b2, b3))
  }

  lemma TurnsPick(k: nat, v: bv32, b: bv32, c: bv32)
    ensures Turns(k, Pick(v, b, c)) == Pick(v, b, Turns(k, c))
  {
    TurnsBound(k, 0);
  }

  lemma TurnsPair(k: nat, v: bv32, c: bv32, b0: bv32, b1: bv32)
    ensures Turns(k, Pair(v, c, b0, b1)) == Pair(v, Turns(k, c), b0, b1)
  {
    hide Xor, Turn, Pick;
    TurnsLinear(k, Pick(v, b0, c), Pick(v, b1, Turn(c)));
    TurnsPick(k, v, b0, c);
    TurnsPick(k, v, b1, Turn(c));
    TurnsCommute(k, 1, c);
    assert Turns(1, c) == Turn(c) && Turns(1, Turns(k, c)) == Turn(Turns(k, c));
  }

  lemma TurnsCommute(j: nat, k: nat, v: bv32)
    ensures Turns(j, Turns(k, v)) == Turns(k, Turns(j, v))
  {
    hide Turns;
    TurnsAdd(j, k, v);
    TurnsAdd(k, j, v);
    assert j + k == k + j;
  }

  lemma TurnsQuarter(k: nat, v: bv32, c: bv32, b0: bv32, b1: bv32, b2: bv32, b3: bv32)
    ensures Turns(k, Quarter(v, c, b0, b1, b2, b3)) == Quarter(v, Turns(k, c), b0, b1, b2, b3)
  {
    hide Xor, Turns, Pair;
    TurnsLinear(k, Pair(v, c, b0, b1), Pair(v, Turns(2, c), b2, b3));
    TurnsPair(k, v, c, b0, b1);
    TurnsPair(k, v, Turns(2, c), b2, b3);
    TurnsCommute(k, 2, c);
  }

  lemma TurnsTimes(k: nat, v: bv32, c: bv32)
    ensures Turns(k, Times(v, c)) == Times(v, Turns(k, c))
  {
    hide Xor, Turns, Pair, Quarter;
    var p, q, r := Quarter(v, c, 1, 2, 4, 8), Quarter(v, Turns(4, c), 16, 32, 64, 128), Pair(v, Turns(8, c), 256, 512);
    TurnsLinear(k, p, Xor(q, r));
    TurnsLinear(k, q, r);
    TurnsQuarter(k, v, c, 1, 2, 4, 8);
    TurnsQuarter(k, v, Turns(4, c), 16, 32, 64, 128);
    TurnsPair(k, v, Turns(8, c), 256, 512);
    TurnsCommute(k, 4, c);
    TurnsCommute(k, 8, c);
  }

  lemma TimesOne(v: bv32)
    requires v < FIELD
    ensures Times(v, 1) == v
  {
    hide Xor, Turns, Pair;
    FirstTurns();
    assert Times(v, 1) == Xor(Xor(Pair(v, 1, 1, 2), Pair(v, 4, 4, 8)),
                              Xor(Xor(Pair(v, 16, 16, 32), Pair(v, 64, 64, 128)), Pair(v, 256, 256, 512)));
    TwoBits(v);
    BitsTogether(v);
  }

  lemma FirstTurns()
    ensures Turns(4, 1) == 16 && Turns(8, 1) == 256 && Turns(2, 1) == 4 && Turns(2, 16) == 64
  {
  }

  lemma TwoBits(v: bv32)
    ensures Pair(v, 1, 1, 2) == v & 3 && Pair(v, 4, 4, 8) == v & 0xC && Pair(v, 16, 16, 32) == v & 0x30
    ensures Pair(v, 64, 64, 128) == v & 0xC0 && Pair(v, 256, 256, 512) == v & 0x300
  {
  }

  lemma BitsTogether(v: bv32)
    requires v < FIELD
    ensures Xor(Xor(v & 3, v & 0xC), Xor(Xor(v & 0x30, v & 0xC0), v & 0x300)) == v
  {
  }

  // k turns are a multiplication by z^k.
  lemma TurnsAreTimes(k: nat, v: bv32)
    requires v < FIELD
    ensures Turns(k, v) == Times(v, Turns(k, 1))
  {
    hide Turns, Times;
    TimesOne(v);
    TurnsTimes(k, v, 1);
  }

  // ------------------------------------------------------------------ powers

  // Squares: z^i becomes z^(2i).
  function Square(v: bv32): bv32 {
    Xor(LowSquare(v), HighSquare(v))
  }

  function LowSquare(v: bv32): bv32 {
    Xor(Xor(Xor(v & 1, (v & 2) << 1), Xor((v & 4) << 2, (v & 8) << 3)), (v & 16) << 4)
  }

  function HighSquare(v: bv32): bv32 {
    Xor(Xor(Xor(Pick(v, 32, 0x123), Pick(v, 64, 0x1AF)), Xor(Pick(v, 128, 0x39F), Pick(v, 256, 0x119))),
        Pick(v, 512, 0x147))
  }

  lemma LowSquareLinear(x: bv32, y: bv32)
    ensures LowSquare(Xor(x, y)) == Xor(LowSquare(x), LowSquare(y))
  {
  }

  lemma HighSquareLinear(x: bv32, y: bv32)
    ensures HighSquare(Xor(x, y)) == Xor(HighSquare(x), HighSquare(y))
  {
    hide Xor, Pick;
    PickLinear(x, y, 32, 0x123);
    PickLinear(x, y, 64, 0x1AF);
    PickLinear(x, y, 128, 0x39F);
    PickLinear(x, y, 256, 0x119);
    PickLinear(x, y, 512, 0x147);
    var a, b, c, d, e := Pick(x, 32, 0x123), Pick(x, 64, 0x1AF), Pick(x, 128, 0x39F), Pick(x, 256, 0x119),
                         Pick(x, 512, 0x147);
    var f, g, h, i, j := Pick(y, 32, 0x123), Pick(y, 64, 0x1AF), Pick(y, 128, 0x39F), Pick(y, 256, 0x119),
                         Pick(y, 512, 0x147);
    XorSwap(a, f, b, g);
    XorSwap(c, h, d, i);
    XorSwap(Xor(a, b), Xor(f, g), Xor(c, d), Xor(h, i));
    XorSwap(Xor(Xor(a, b), Xor(c, d)), Xor(Xor(f, g), Xor(h, i)), e, j);
  }

  lemma SquareLinear(x: bv32, y: bv32)
    ensures Square(Xor(x, y)) == Xor(Square(x), Square(y))
  {
    hide Xor, LowSquare, HighSquare;
    LowSquareLinear(x, y);
    HighSquareLinear(x, y);
    XorSwap(LowSquare(x), LowSquare(y), HighSquare(x), HighSquare(y));
  }

  ghost predicate SquaresTurn(v: bv32) {
    Square(Turn(v)) == Turn(Turn(Square(v)))
  }

  lemma SquaresTurnLinear(x: bv32, y: bv32)
    requires SquaresTurn(x) && SquaresTurn(y)
    ensures SquaresTurn(Xor(x, y))
  {
    hide Xor, Square, Turn;
    TurnLinear(x, y);
    SquareLinear(Turn(x), Turn(y));
    SquareLinear(x, y);
    TurnLinear(Square(x), Square(y));
    TurnLinear(Turn(Square(x)), Turn(Square(y)));
  }

  lemma LowSquaresTurn(v: bv32)
    requires v < 32
    ensures SquaresTurn(v)
  {
  }

  lemma MiddleSquaresTurn(v: bv32)
    requires v < 0x200 && v & 0x1F == 0
    ensures SquaresTurn(v)
  {
  }

  lemma TopSquaresTurn()
    ensures SquaresTurn(0) && SquaresTurn(0x200)
  {
  }

  lemma ThreeParts(v: bv32)
    requires v < FIELD
    ensures v == Xor(Xor(v & 0x1F, v & 0x1E0), v & 0x200)
    ensures v & 0x1F < 32 && v & 0x1E0 < 0x200 && (v & 0x1E0) & 0x1F == 0
    ensures v & 0x200 == 0 || v & 0x200 == 0x200
  {
  }

  lemma SquareTurn(v: bv32)
    requires v < FIELD
    ensures SquaresTurn(v)
  {
    hide Xor, SquaresTurn;
    ThreeParts(v);
    LowSquaresTurn(v & 0x1F);
    MiddleSquaresTurn(v & 0x1E0);
    TopSquaresTurn();
    SquaresTurnLinear(v & 0x1F, v & 0x1E0);
    SquaresTurnLinear(Xor(v & 0x1F, v & 0x1E0), v & 0x200);
  }

  lemma {:induction false} SquareTurns(k: nat)
    ensures Turns(2 * k, 1) == Square(Turns(k, 1)) && Turns(2 * k + 1, 1) == Turn(Square(Turns(k, 1)))
  {
    hide Turn, Square;
    if k == 0 {
      SquareOfOne();
    } else {
      SquareTurns(k - 1);
      TurnsBound(k - 1, 1);
      SquareTurn(Turns(k - 1, 1));
      assert Turns(2 * k, 1) == Turn(Turns(2 * k - 1, 1)) == Turn(Turn(Turns(2 * (k - 1), 1)));
    }
  }

  lemma SquareOfOne()
    ensures Square(1) == 1
  {
  }

  // z^k is v.
  ghost predicate PowerIs(k: nat, v: bv32) {
    Turns(k, 1) == v
  }

  lemma Even(k: nat, v: bv32, w: bv32)
    requires PowerIs(k, v) && Square(v) == w
    ensures PowerIs(2 * k, w)
  {
    hide Turns, Square;
    SquareTurns(k);
  }

  lemma Odd(k: nat, v: bv32, w: bv32)
    requires PowerIs(k, v) && Turn(Square(v)) == w
    ensures PowerIs(2 * k + 1, w)
  {
    hide Turns, Square, Turn;
    SquareTurns(k);
  }

  lemma One()
    ensures PowerIs(1, 2)
  {
  }

  lemma RootPowers()
    ensures PowerIs(24, 0x3F0) && PowerIs(25, 0x2C3) && PowerIs(26, 0xA5)
  {
    hide PowerIs;
    One();
    Odd(1, 0x2, 0x8); Even(3, 0x8, 0x40); Even(6, 0x40, 0x1AF); Even(12, 0x1AF, 0x3F0);
    Odd(12, 0x1AF, 0x2C3); Odd(6, 0x40, 0x35E); Even(13, 0x35E, 0xA5);
  }

  lemma SixthPowers()
    ensures PowerIs(144, 0x2BA) && PowerIs(150, 0xA6) && PowerIs(156, 0x98)
  {
    hide PowerIs;
    One();
    Even(1, 0x2, 0x4); Even(2, 0x4, 0x10); Odd(4, 0x10, 0x200); Even(9, 0x200, 0x147);
    Even(18, 0x147, 0xA3); Even(36, 0xA3, 0x2B9); Even(72, 0x2B9, 0x2BA); Odd(18, 0x147, 0x146);
    Odd(37, 0x146, 0x144); Even(75, 0x144, 0xA6); Odd(9, 0x200, 0x28E); Odd(19, 0x28E, 0x3B);
    Even(39, 0x3B, 0x66); Even(78, 0x66, 0x98);
  }

  lemma Order()
    ensures PowerIs(1023, 0x1)
  {
    hide PowerIs;
    One();
    Odd(1, 0x2, 0x8); Odd(3, 0x8, 0x80); Odd(7, 0x80, 0x21D); Odd(15, 0x21D, 0x2C);
    Odd(31, 0x2C, 0x2E6); Odd(63, 0x2E6, 0x1A3); Odd(127, 0x1A3, 0x263); Odd(255, 0x263, 0x39C);
    Odd(511, 0x39C, 0x1);
  }

  lemma Cofactors()
    ensures PowerIs(33, 0xB0) && PowerIs(93, 0x36A) && PowerIs(341, 0x36)
  {
    hide PowerIs;
    One();
    Even(1, 0x2, 0x4); Even(2, 0x4, 0x10); Even(4, 0x10, 0x100); Even(8, 0x100, 0x119);
    Odd(16, 0x119, 0xB0); Odd(2, 0x4, 0x20); Odd(5, 0x20, 0x246); Odd(11, 0x246, 0x1F8);
    Even(23, 0x1F8, 0x34A); Odd(46, 0x34A, 0x36A); Even(5, 0x20, 0x123); Odd(10, 0x123, 0x7E);
    Even(21, 0x7E, 0x1D8); Odd(42, 0x1D8, 0x1F1); Even(85, 0x1F1, 0x30B); Odd(170, 0x30B, 0x36);
  }

  // Multiplication by z^d moves everything but 0, for d = 33, 93 and 341.
  lemma Moves33(v: bv32)
    requires v < FIELD && Times(v, 0xB0) == v
    ensures v == 0
  {
  }

  lemma Moves93(v: bv32)
    requires v < FIELD && Times(v, 0x36A) == v
    ensures v == 0
  {
  }

  lemma Moves341(v: bv32)
    requires v < FIELD && Times(v, 0x36) == v
    ensures v == 0
  {
  }

  lemma CofactorsMove(v: bv32)
    requires v < FIELD && (Turns(33, v) == v || Turns(93, v) == v || Turns(341, v) == v)
    ensures v == 0
  {
    hide Times, Turns;
    Cofactors();
    TurnsAreTimes(33, v);
    TurnsAreTimes(93, v);
    TurnsAreTimes(341, v);
    if Turns(33, v) == v { Moves33(v); } else if Turns(93, v) == v { Moves93(v); } else { Moves341(v); }
  }

  lemma {:induction false} FixedMultiple(d: nat, q: nat, v: bv32)
    requires Turns(d, v) == v
    ensures 0 <= q * d && Turns(q * d, v) == v
  {
    hide Turn;
    if q > 0 {
      FixedMultiple(d, q - 1, v);
      TurnsAdd(d, (q - 1) * d, v);
      assert q * d == d + (q - 1) * d;
    } else {
      assert q * d == 0;
    }
  }

  lemma FullTurn(v: bv32)
    requires v < FIELD
    ensures Turns(1023, v) == v
  {
    hide Times, Turns;
    Order();
    TurnsAreTimes(1023, v);
    TimesOne(v);
  }

  // d and 1023 have only the multiples of p in common with a factor p of 1023.
  lemma FixedCofactor(d: nat, p: int, m: nat, v: bv32)
    requires IsPrime(p) && p * m == 1023 && d % p != 0 && v < FIELD && Turns(d, v) == v
    ensures Turns(m, v) == v
  {
    hide Turns;
    var k := InverseExists(d, p);
    var e := d * k;
    DivMod(e, p);
    var l := e / p;
    assert l >= 0 by { if l < 0 { MulLe(l, -1, p); MulLe(0, d, k); } }
    FullTurn(v);
    FixedMultiple(d, k * m, v);
    FixedMultiple(1023, l, v);
    assert (k * m) * d == m * e by { assert (k * m) * d == m * (d * k); }
    assert m * (p * l + 1) == l * (p * m) + m;
    TurnsAdd(l * 1023, m, v);
  }

  // Fewer than 1023 turns move everything but 0.
  lemma ShortTurnsMove(d: nat, v: bv32)
    requires 0 < d < 1023 && v < FIELD && Turns(d, v) == v
    ensures v == 0
  {
    hide Turns, IsPrime;
    SmallPrimes();
    if d % 31 != 0 {
      FixedCofactor(d, 31, 33, v);
    } else if d % 11 != 0 {
      FixedCofactor(d, 11, 93, v);
    } else {
      assert d % 3 != 0;
      FixedCofactor(d, 3, 341, v);
    }
    CofactorsMove(v);
  }

  lemma SmallPrimes()
    ensures IsPrime(31) && IsPrime(11) && IsPrime(3)
  {
  }

  // ------------------------------------------- products with fixed powers of z

  // v times c, given c times 1, z, ..., z^9.
  function Sum(v: bv32, c0: bv32, c1: bv32, c2: bv32, c3: bv32, c4: bv32,
               c5: bv32, c6: bv32, c7: bv32, c8: bv32, c9: bv32): bv32 {
    Xor(Xor(Xor(Pick(v, 1, c0), Pick(v, 2, c1)), Xor(Pick(v, 4, c2), Pick(v, 8, c3))),
        Xor(Xor(Xor(Pick(v, 16, c4), Pick(v, 32, c5)), Xor(Pick(v, 64, c6), Pick(v, 128, c7))),
            Xor(Pick(v, 256, c8), Pick(v, 512, c9))))
  }

  lemma TwoTurns(c: bv32)
    ensures Turns(2, c) == Turn(Turn(c))
  {
    hide Turn;
    assert Turns(1, c) == Turn(c);
  }

  lemma TimesIsSum(v: bv32, c0: bv32, c1: bv32, c2: bv32, c3: bv32, c4: bv32,
                   c5: bv32, c6: bv32, c7: bv32, c8: bv32, c9: bv32)
    requires c1 == Turn(c0) && c2 == Turn(c1) && c3 == Turn(c2) && c4 == Turn(c3) && c5 == Turn(c4)
    requires c6 == Turn(c5) && c7 == Turn(c6) && c8 == Turn(c7) && c9 == Turn(c8)
    ensures Times(v, c0) == Sum(v, c0, c1, c2, c3, c4, c5, c6, c7, c8, c9)
  {
    hide Xor, Turn, Pick;
    TwoTurns(c0);
    TwoTurns(c2);
    TwoTurns(c4);
    TwoTurns(c6);
    TurnsAdd(2, 2, c0);
    TurnsAdd(4, 2, c0);
    TurnsAdd(6, 2, c0);
  }

  // The powers are those of the roots, and their sixth powers.
  ghost predicate Listed(k: nat) {
    k == 24 || k == 25 || k == 26 || k == 144 || k == 150 || k == 156
  }

  function ByPower(k: nat, v: bv32): bv32 {
    if k == 24 then Sum(v, 0x3F0, 0x2C3, 0xA5, 0x14A, 0x294, 0xB, 0x16, 0x2C, 0x58, 0xB0)
    else if k == 25 then Sum(v, 0x2C3, 0xA5, 0x14A, 0x294, 0xB, 0x16, 0x2C, 0x58, 0xB0, 0x160)
    else if k == 26 then Sum(v, 0xA5, 0x14A, 0x294, 0xB, 0x16, 0x2C, 0x58, 0xB0, 0x160, 0x2C0)
    else if k == 144 then Sum(v, 0x2BA, 0x57, 0xAE, 0x15C, 0x2B8, 0x53, 0xA6, 0x14C, 0x298, 0x13)
    else if k == 150 then Sum(v, 0xA6, 0x14C, 0x298, 0x13, 0x26, 0x4C, 0x98, 0x130, 0x260, 0x1E3)
    else Sum(v, 0x98, 0x130, 0x260, 0x1E3, 0x3C6, 0x2AF, 0x7D, 0xFA, 0x1F4, 0x3E8)
  }

  lemma ByPowerIs(k: nat, v: bv32)
    requires Listed(k) && v < FIELD
    ensures Turns(k, v) == ByPower(k, v)
  {
    hide Turns, Times, Sum;
    RootPowers();
    SixthPowers();
    TurnsAreTimes(k, v);
    if k == 24 {
      TimesIsSum(v, 0x3F0, 0x2C3, 0xA5, 0x14A, 0x294, 0xB, 0x16, 0x2C, 0x58, 0xB0);
    } else if k == 25 {
      TimesIsSum(v, 0x2C3, 0xA5, 0x14A, 0x294, 0xB, 0x16, 0x2C, 0x58, 0xB0, 0x160);
    } else if k == 26 {
      TimesIsSum(v, 0xA5, 0x14A, 0x294, 0xB, 0x16, 0x2C, 0x58, 0xB0, 0x160, 0x2C0);
    } else if k == 144 {
      TimesIsSum(v, 0x2BA, 0x57, 0xAE, 0x15C, 0x2B8, 0x53, 0xA6, 0x14C, 0x298, 0x13);
    } else if k == 150 {
      TimesIsSum(v, 0xA6, 0x14C, 0x298, 0x13, 0x26, 0x4C, 0x98, 0x130, 0x260, 0x1E3);
    } else {
      TimesIsSum(v, 0x98, 0x130, 0x260, 0x1E3, 0x3C6, 0x2AF, 0x7D, 0xFA, 0x1F4, 0x3E8);
    }
  }
}
