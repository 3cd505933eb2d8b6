/** How many wrong symbols the Bech32 checksum finds wherever they are: any
    three among 1023 places. The generator polynomial of the checksum has the
    24th, 25th and 26th power of z in the field of 1024 elements among its roots;
    reading the register at these roots turns its steps into multiplications,
    and three terms that cancel at three consecutive powers are all zero. */
module Detection {
  import opened Field1024
  import opened Polymod

  // ---------------------------------------------- reading the register at z^r

  // The sum of the constants for the bits of a symbol.
  function Five(h: bv32, a: bv32, b: bv32, c: bv32, d: bv32, e: bv32): bv32 {
    Xor(Xor(Xor(Pick(h, 1, a), Pick(h, 2, b)), Xor(Pick(h, 4, c), Pick(h, 8, d))), Pick(h, 16, e))
  }

  // A symbol of the field of 32 elements in the field of 1024.
  function Embed(a: bv32): bv32 {
    Five(a, 1, 0xE, 0x54, 0x358, 0xBF)
  }

  lemma EmbedSymbol(a: bv32)
    requires a < 32
    ensures Embed(a) < FIELD && (Embed(a) == 0 <==> a == 0)
  {
  }

  lemma EmbedLinear(x: bv32, y: bv32)
    ensures Embed(Xor(x, y)) == Xor(Embed(x), Embed(y))
  {
    hide Xor, Pick;
    PickLinear(x, y, 1, 1);
    PickLinear(x, y, 2, 0xE);
    PickLinear(x, y, 4, 0x54);
    PickLinear(x, y, 8, 0x358);
    PickLinear(x, y, 16, 0xBF);
    var a, b, c, d, e := Pick(x, 1, 1), Pick(x, 2, 0xE), Pick(x, 4, 0x54), Pick(x, 8, 0x358), Pick(x, 16, 0xBF);
    var f, g, h, i, j := Pick(y, 1, 1), Pick(y, 2, 0xE), Pick(y, 4, 0x54), Pick(y, 8, 0x358), Pick(y, 16, 0xBF);
    XorSwap(a, f, b, g);
    XorSwap(c, h, d, i);
    XorSwap(Xor(a, b), Xor(f, g), Xor(c, d), Xor(h, i));
    XorSwap(Xor(Xor(a, b), Xor(c, d)), Xor(Xor(f, g), Xor(h, i)), e, j);
  }

  function Digit(x: bv32, i: bv32): bv32
    requires i < 32
  {
    (x >> i) & 31
  }

  lemma Digit0Linear(x: bv32, y: bv32)
    ensures Digit(Xor(x, y), 0) == Xor(Digit(x, 0), Digit(y, 0))
  {
  }

  lemma Digit5Linear(x: bv32, y: bv32)
    ensures Digit(Xor(x, y), 5) == Xor(Digit(x, 5), Digit(y, 5))
  {
  }

  lemma Digit10Linear(x: bv32, y: bv32)
    ensures Digit(Xor(x, y), 10) == Xor(Digit(x, 10), Digit(y, 10))
  {
  }

  lemma Digit15Linear(x: bv32, y: bv32)
    ensures Digit(Xor(x, y), 15) == Xor(Digit(x, 15), Digit(y, 15))
  {
  }

  lemma Digit20Linear(x: bv32, y: bv32)
    ensures Digit(Xor(x, y), 20) == Xor(Digit(x, 20), Digit(y, 20))
  {
  }

  lemma Digit25Linear(x: bv32, y: bv32)
    ensures Digit(Xor(x, y), 25) == Xor(Digit(x, 25), Digit(y, 25))
  {
  }

  function Join(r: nat, v: bv32, a: bv32): bv32 {
    Xor(Turns(r, v), Embed(a))
  }

  lemma JoinLinear(r: nat, v: bv32, w: bv32, a: bv32, b: bv32)
    ensures Join(r, Xor(v, w), Xor(a, b)) == Xor(Join(r, v, a), Join(r, w, b))
  {
    hide Xor, Turns, Embed;
    TurnsLinear(r, v, w);
    EmbedLinear(a, b);
    XorSwap(Turns(r, v), Turns(r, w), Embed(a), Embed(b));
  }

  // The six symbols of the register as a polynomial, at z^r.
  function At(r: nat, x: bv32): bv32 {
    Join(r, Fifth(r, x), Digit(x, 0))
  }

  function Fifth(r: nat, x: bv32): bv32 {
    Join(r, Join(r, Join(r, Join(r, Embed(Digit(x, 25)), Digit(x, 20)), Digit(x, 15)), Digit(x, 10)), Digit(x, 5))
  }

  lemma FifthLinear(r: nat, x: bv32, y: bv32)
    ensures Fifth(r, Xor(x, y)) == Xor(Fifth(r, x), Fifth(r, y))
  {
    hide Xor, Join, Embed, Digit;
    Digit25Linear(x, y);
    Digit20Linear(x, y);
    Digit15Linear(x, y);
    Digit10Linear(x, y);
    Digit5Linear(x, y);
    var v5, w5 := Embed(Digit(x, 25)), Embed(Digit(y, 25));
    EmbedLinear(Digit(x, 25), Digit(y, 25));
    JoinLinear(r, v5, w5, Digit(x, 20), Digit(y, 20));
    var v4, w4 := Join(r, v5, Digit(x, 20)), Join(r, w5, Digit(y, 20));
    JoinLinear(r, v4, w4, Digit(x, 15), Digit(y, 15));
    var v3, w3 := Join(r, v4, Digit(x, 15)), Join(r, w4, Digit(y, 15));
    JoinLinear(r, v3, w3, Digit(x, 10), Digit(y, 10));
    JoinLinear(r, Join(r, v3, Digit(x, 10)), Join(r, w3, Digit(y, 10)), Digit(x, 5), Digit(y, 5));
  }

  lemma AtLinear(r: nat, x: bv32, y: bv32)
    ensures At(r, Xor(x, y)) == Xor(At(r, x), At(r, y))
  {
    hide Xor, Join, Fifth, Digit;
    FifthLinear(r, x, y);
    Digit0Linear(x, y);
    JoinLinear(r, Fifth(r, x), Fifth(r, y), Digit(x, 0), Digit(y, 0));
  }

  lemma NoDigit(r: nat, v: bv32)
    ensures Embed(0) == 0 && Turns(r, 0) == 0 && Join(r, v, 0) == Turns(r, v) && Join(r, 0, v) == Embed(v)
  {
    hide Xor, Turns;
    TurnsBound(r, 0);
    XorLaws(0, 0);
    XorLaws(Turns(r, v), 0);
    XorLaws(0, Embed(v));
    XorLaws(Embed(v), 0);
  }

  lemma AtSymbol(r: nat, a: Symbol)
    ensures At(r, a) == Embed(a)
  {
    hide Join, Embed;
    SymbolDigits(a);
    NoDigit(r, 0);
    NoDigit(r, a);
  }

  lemma SymbolDigits(a: Symbol)
    ensures Digit(a, 0) == a
    ensures Digit(a, 5) == Digit(a, 10) == Digit(a, 15) == Digit(a, 20) == Digit(a, 25) == 0
  {
  }

  // While the register has room a step multiplies by z^r.
  lemma AtLow(r: nat, x: bv32)
    requires x < 0x200_0000
    ensures At(r, Step(x)) == Turns(r, At(r, x))
  {
    hide Join, Embed, Step, Digit;
    PlainShift(x);
    LowDigits(x);
    NoDigit(r, 0);
    NoDigit(r, Digit(x, 20));
    NoDigit(r, At(r, x));
  }

  lemma LowDigits(x: bv32)
    requires x < 0x200_0000
    ensures Digit(x, 25) == 0 && Digit(x << 5, 0) == 0 && Digit(x << 5, 5) == Digit(x, 0)
    ensures Digit(x << 5, 10) == Digit(x, 5) && Digit(x << 5, 15) == Digit(x, 10)
    ensures Digit(x << 5, 20) == Digit(x, 15) && Digit(x << 5, 25) == Digit(x, 20)
  {
  }

  // ------------------------------------------- the generator vanishes at z^r

  ghost predicate Root(r: nat) {
    r == 24 || r == 25 || r == 26
  }

  lemma Reads(r: nat, x: bv32, v5: bv32, v4: bv32, v3: bv32, v2: bv32, v1: bv32, v0: bv32)
    requires Root(r) && v5 < FIELD && v4 < FIELD && v3 < FIELD && v2 < FIELD && v1 < FIELD
    requires Embed(Digit(x, 25)) == v5 && Xor(ByPower(r, v5), Embed(Digit(x, 20))) == v4
    requires Xor(ByPower(r, v4), Embed(Digit(x, 15))) == v3 && Xor(ByPower(r, v3), Embed(Digit(x, 10))) == v2
    requires Xor(ByPower(r, v2), Embed(Digit(x, 5))) == v1 && Xor(ByPower(r, v1), Embed(Digit(x, 0))) == v0
    ensures At(r, x) == v0
  {
    hide Embed, Digit, ByPower, Xor;
    ByPowerIs(r, v5);
    ByPowerIs(r, v4);
    ByPowerIs(r, v3);
    ByPowerIs(r, v2);
    ByPowerIs(r, v1);
  }

  lemma GeneratorsAt24()
    ensures At(24, 0x3B6A57B2) == 0x2BA && At(24, 0x26508E6D) == 0x1A5
    ensures At(24, 0x1EA119FA) == 0x2B0 && At(24, 0x3D4233DD) == 0x1C9 && At(24, 0x2A1462B3) == 0xB8
  {
    hide At;
    Reads(24, 0x3B6A57B2, 0x3B2, 0x7D, 0x7D, 0x7C, 0xD4, 0x2BA);
    Reads(24, 0x26508E6D, 0xB0, 0x2E6, 0x2E6, 0x2E8, 0x17B, 0x1A5);
    Reads(24, 0x1EA119FA, 0x303, 0x28D, 0x28D, 0x2D9, 0x3A7, 0x2B0);
    Reads(24, 0x3D4233DD, 0x3BD, 0xAF, 0xAF, 0x3F7, 0x66, 0x1C9);
    Reads(24, 0x2A1462B3, 0xEA, 0x3B9, 0x3B9, 0x306, 0x264, 0xB8);
  }

  lemma GeneratorsAt25()
    ensures At(25, 0x3B6A57B2) == 0xA6 && At(25, 0x26508E6D) == 0x3C7
    ensures At(25, 0x1EA119FA) == 0x226 && At(25, 0x3D4233DD) == 0x32E && At(25, 0x2A1462B3) == 0x23B
  {
    hide At;
    Reads(25, 0x3B6A57B2, 0x3B2, 0x1D5, 0x3AD, 0x69, 0x3DF, 0xA6);
    Reads(25, 0x26508E6D, 0xB0, 0x10, 0xA, 0x23E, 0x2B6, 0x3C7);
    Reads(25, 0x1EA119FA, 0x303, 0xE0, 0x6C, 0x3BE, 0x1ED, 0x226);
    Reads(25, 0x3D4233DD, 0x3BD, 0x63, 0x208, 0xF8, 0x140, 0x32E);
    Reads(25, 0x2A1462B3, 0xEA, 0x252, 0x2BA, 0xF3, 0x2E5, 0x23B);
  }

  lemma GeneratorsAt26()
    ensures At(26, 0x3B6A57B2) == 0x98 && At(26, 0x26508E6D) == 0x2B3
    ensures At(26, 0x1EA119FA) == 0x1DB && At(26, 0x3D4233DD) == 0x44 && At(26, 0x2A1462B3) == 0x3B8
  {
    hide At;
    Reads(26, 0x3B6A57B2, 0x3B2, 0x285, 0xAA, 0x137, 0x193, 0x98);
    Reads(26, 0x26508E6D, 0xB0, 0xDF, 0x38F, 0x6F, 0x3B4, 0x2B3);
    Reads(26, 0x1EA119FA, 0x303, 0x119, 0x1D6, 0x21A, 0x94, 0x1DB);
    Reads(26, 0x3D4233DD, 0x3BD, 0x1FB, 0x2, 0x246, 0x2FB, 0x44);
    Reads(26, 0x2A1462B3, 0xEA, 0x184, 0x1C, 0x16E, 0x22B, 0x3B8);
  }

  lemma SixTurns24()
    ensures ByPower(144, 1) == 0x2BA && ByPower(144, 0xE) == 0x1A5 && ByPower(144, 0x54) == 0x2B0
    ensures ByPower(144, 0x358) == 0x1C9 && ByPower(144, 0xBF) == 0xB8
  {
  }

  lemma SixTurns25()
    ensures ByPower(150, 1) == 0xA6 && ByPower(150, 0xE) == 0x3C7 && ByPower(150, 0x54) == 0x226
    ensures ByPower(150, 0x358) == 0x32E && ByPower(150, 0xBF) == 0x23B
  {
  }

  lemma SixTurns26()
    ensures ByPower(156, 1) == 0x98 && ByPower(156, 0xE) == 0x2B3 && ByPower(156, 0x54) == 0x1DB
    ensures ByPower(156, 0x358) == 0x44 && ByPower(156, 0xBF) == 0x3B8
  {
  }

  // The generator polynomials, as the top symbol h picks them.
  lemma TopStep(h: Symbol)
    ensures Step(h << 25) == Five(h, 0x3B6A57B2, 0x26508E6D, 0x1EA119FA, 0x3D4233DD, 0x2A1462B3)
    ensures Digit(h << 25, 25) == h
    ensures Digit(h << 25, 0) == Digit(h << 25, 5) == Digit(h << 25, 10) == Digit(h << 25, 15)
         == Digit(h << 25, 20) == 0
  {
  }

  lemma AtPick(r: nat, h: bv32, bit: bv32, c: bv32)
    ensures At(r, Pick(h, bit, c)) == Pick(h, bit, At(r, c))
  {
    hide Embed, Turns;
    AtSymbol(r, 0);
    NoDigit(r, 0);
  }

  lemma AtFive(r: nat, h: bv32, a: bv32, b: bv32, c: bv32, d: bv32, e: bv32)
    ensures At(r, Five(h, a, b, c, d, e)) == Five(h, At(r, a), At(r, b), At(r, c), At(r, d), At(r, e))
  {
    hide Xor, Pick, At;
    var s, t, u, v, w := Pick(h, 1, a), Pick(h, 2, b), Pick(h, 4, c), Pick(h, 8, d), Pick(h, 16, e);
    AtLinear(r, Xor(Xor(s, t), Xor(u, v)), w);
    AtLinear(r, Xor(s, t), Xor(u, v));
    AtLinear(r, s, t);
    AtLinear(r, u, v);
    AtPick(r, h, 1, a);
    AtPick(r, h, 2, b);
    AtPick(r, h, 4, c);
    AtPick(r, h, 8, d);
    AtPick(r, h, 16, e);
  }

  lemma TurnsFive(k: nat, h: bv32, a: bv32, b: bv32, c: bv32, d: bv32, e: bv32)
    ensures Turns(k, Five(h, a, b, c, d, e))
         == Five(h, Turns(k, a), Turns(k, b), Turns(k, c), Turns(k, d), Turns(k, e))
  {
    hide Xor, Pick, Turns;
    var s, t, u, v, w := Pick(h, 1, a), Pick(h, 2, b), Pick(h, 4, c), Pick(h, 8, d), Pick(h, 16, e);
    TurnsLinear(k, Xor(Xor(s, t), Xor(u, v)), w);
    TurnsLinear(k, Xor(s, t), Xor(u, v));
    TurnsLinear(k, s, t);
    TurnsLinear(k, u, v);
    TurnsPick(k, h, 1, a);
    TurnsPick(k, h, 2, b);
    TurnsPick(k, h, 4, c);
    TurnsPick(k, h, 8, d);
    TurnsPick(k, h, 16, e);
  }

  // What leaves the register at the top comes back as its value at z^r.
  lemma GeneratorAtRoot(r: nat, h: Symbol)
    requires Root(r)
    ensures At(r, Step(h << 25)) == Turns(6 * r, Embed(h))
  {
    hide At, Turns, Five, Step, Digit, ByPower;
    TopStep(h);
    AtFive(r, h, 0x3B6A57B2, 0x26508E6D, 0x1EA119FA, 0x3D4233DD, 0x2A1462B3);
    TurnsFive(6 * r, h, 1, 0xE, 0x54, 0x358, 0xBF);
    ByPowerIs(6 * r, 1);
    ByPowerIs(6 * r, 0xE);
    ByPowerIs(6 * r, 0x54);
    ByPowerIs(6 * r, 0x358);
    ByPowerIs(6 * r, 0xBF);
    if r == 24 {
      GeneratorsAt24();
      SixTurns24();
    } else if r == 25 {
      GeneratorsAt25();
      SixTurns25();
    } else {
      GeneratorsAt26();
      SixTurns26();
    }
  }

  lemma AtTop(r: nat, h: Symbol)
    ensures At(r, h << 25) == Turns(5 * r, Embed(h))
  {
    hide Turns, Embed, Join, Digit, Step;
    TopStep(h);
    var v := Embed(h);
    NoDigit(r, v);
    NoDigit(r, Turns(r, v));
    TurnsAdd(r, r, v);
    NoDigit(r, Turns(2 * r, v));
    TurnsAdd(2 * r, r, v);
    NoDigit(r, Turns(3 * r, v));
    TurnsAdd(3 * r, r, v);
    NoDigit(r, Turns(4 * r, v));
    TurnsAdd(4 * r, r, v);
  }

  lemma TopAndLow(x: bv32)
    requires x < LIMIT
    ensures x >> 25 < 32 && x & 0x1FF_FFFF < 0x200_0000 && x == Xor((x >> 25) << 25, x & 0x1FF_FFFF)
  {
  }

  // A step of the register multiplies its value at a root of the generator.
  lemma StepAt(r: nat, x: bv32)
    requires Root(r) && x < LIMIT
    ensures At(r, Step(x)) == Turns(r, At(r, x))
  {
    hide At, Turns, Step, Xor, Embed;
    TopAndLow(x);
    var h: Symbol := x >> 25;
    var t, l := h << 25, x & 0x1FF_FFFF;
    StepLinear(t, l);
    AtLinear(r, Step(t), Step(l));
    AtLow(r, l);
    GeneratorAtRoot(r, h);
    AtTop(r, h);
    TurnsAdd(5 * r, r, Embed(h));
    AtLinear(r, t, l);
    TurnsLinear(r, At(r, t), At(r, l));
  }

  function Steps(k: nat, x: bv32): bv32 {
    if k == 0 then x else Step(Steps(k - 1, x))
  }

  lemma {:induction false} StepsAt(r: nat, k: nat, x: bv32)
    requires Root(r) && x < LIMIT
    ensures Steps(k, x) < LIMIT && 0 <= r * k
    ensures At(r, Steps(k, x)) == Turns(r * k, At(r, x))
  {
    hide At, Turn, Step;
    if k > 0 {
      StepsAt(r, k - 1, x);
      StepBound(Steps(k - 1, x));
      StepAt(r, Steps(k - 1, x));
      TurnsAdd(r * (k - 1), r, At(r, x));
      assert r * k == r * (k - 1) + r;
    } else {
      assert r * k == 0;
    }
  }

  // ------------------------------------------------------------ three terms

  lemma XorSame(u: bv32, v: bv32, w: bv32, u': bv32, v': bv32)
    requires Xor(Xor(u, v), w) == 0 && Xor(Xor(u', v'), w) == 0
    ensures Xor(u, u') == Xor(v, v')
  {
    hide Xor;
    XorLaws(Xor(u, v), w);
    XorLaws(Xor(u', v'), w);
    XorSwap(u, v, u', v');
    XorLaws(Xor(u, u'), Xor(v, v'));
    XorLaws(w, w);
  }

  lemma TurnsApart(n: nat, m: nat, t: bv32)
    requires t < FIELD && 0 < m < n < 1023 && Turns(n, t) == Turns(m, t)
    ensures t == 0
  {
    hide Turns;
    TurnsAdd(n - m, m, t);
    TurnsBound(n - m, t);
    TurnsInjective(m, Turns(n - m, t), t);
    ShortTurnsMove(n - m, t);
  }

  lemma NoSelfXor(k: nat, u: bv32)
    requires u < FIELD && 0 < k < 1023 && Xor(u, Turns(k, u)) == 0
    ensures u == 0
  {
    hide Xor, Turns;
    XorLaws(u, Turns(k, u));
    ShortTurnsMove(k, u);
  }

  // Vandermonde's argument: three terms that cancel, and still do when the
  // first is turned n times, the second m times, once and again.
  lemma ThreeTerms(u: bv32, v: bv32, w: bv32, n: nat, m: nat)
    requires u < FIELD && v < FIELD && 0 < m < n < 1023
    requires Xor(Xor(u, v), w) == 0 && Xor(Xor(Turns(n, u), Turns(m, v)), w) == 0
    requires Xor(Xor(Turns(n, Turns(n, u)), Turns(m, Turns(m, v))), w) == 0
    ensures u == 0 && v == 0 && w == 0
  {
    hide Xor, Turns;
    TermsVanish(u, v, w, n, m);
    XorLaws(0, 0);
    XorLaws(0, w);
  }

  lemma TermsVanish(u: bv32, v: bv32, w: bv32, n: nat, m: nat)
    requires u < FIELD && v < FIELD && 0 < m < n < 1023
    requires Xor(Xor(u, v), w) == 0 && Xor(Xor(Turns(n, u), Turns(m, v)), w) == 0
    requires Xor(Xor(Turns(n, Turns(n, u)), Turns(m, Turns(m, v))), w) == 0
    ensures u == 0 && v == 0
  {
    hide Xor, Turns;
    var u1, v1 := Turns(n, u), Turns(m, v);
    XorSame(u, v, w, u1, v1);
    XorSame(u1, v1, w, Turns(n, u1), Turns(m, v1));
    TurnsLinear(n, u, u1);
    TurnsLinear(m, v, v1);
    SumBound(n, u);
    TurnsApart(n, m, Xor(u, u1));
    NoSelfXor(n, u);
    NoSelfXor(m, v);
  }

  lemma SumBound(n: nat, u: bv32)
    requires u < FIELD
    ensures Xor(u, Turns(n, u)) < FIELD
  {
    TurnsBound(n, u);
    FieldXor(u, Turns(n, u));
  }

  lemma ZeroAt(r: nat, x: bv32, y: bv32, z: bv32)
    requires Xor(Xor(x, y), z) == 0
    ensures Xor(Xor(At(r, x), At(r, y)), At(r, z)) == 0
  {
    hide Xor, At, Embed;
    AtLinear(r, Xor(x, y), z);
    AtLinear(r, x, y);
    AtSymbol(r, 0);
    NoDigit(r, 0);
  }

  lemma TermAt(j: nat, n: nat, a: Symbol)
    requires j <= 2
    ensures 0 <= 24 * n && 0 <= j * n && Steps(n, a) < LIMIT
    ensures At(24 + j, Steps(n, a)) == Turns(j * n, Turns(24 * n, Embed(a)))
  {
    hide At, Turns, Steps, Embed;
    StepsAt(24 + j, n, a);
    AtSymbol(24 + j, a);
    TurnsAdd(24 * n, j * n, Embed(a));
    assert (24 + j) * n == 24 * n + j * n;
  }

  // Three symbols fed at three of 1023 places never cancel.
  lemma NoCancellation(a: Symbol, b: Symbol, c: Symbol, n: nat, m: nat)
    requires 0 < m < n < 1023 && Xor(Xor(Steps(n, a), Steps(m, b)), c) == 0
    ensures a == 0 && b == 0 && c == 0
  {
    hide Xor, At, Turns, Steps, Embed;
    var x, y := Steps(n, a), Steps(m, b);
    var u, v, w := Turns(24 * n, Embed(a)), Turns(24 * m, Embed(b)), Embed(c);
    ZeroAt(24, x, y, c);
    ZeroAt(25, x, y, c);
    ZeroAt(26, x, y, c);
    TermAt(0, n, a);
    TermAt(1, n, a);
    TermAt(2, n, a);
    TermAt(0, m, b);
    TermAt(1, m, b);
    TermAt(2, m, b);
    AtSymbol(24, c);
    AtSymbol(25, c);
    AtSymbol(26, c);
    TurnsAdd(n, n, u);
    TurnsAdd(m, m, v);
    NoTurns(u);
    NoTurns(v);
    EmbedSymbol(a);
    EmbedSymbol(b);
    EmbedSymbol(c);
    TurnsBound(24 * n, Embed(a));
    TurnsBound(24 * m, Embed(b));
    ThreeTerms(u, v, w, n, m);
  }

  lemma NoTurns(v: bv32)
    ensures Turns(0, v) == v
  {
  }

  // --------------------------------------------------- strings of symbols

  lemma {:induction false} CommonRun(x: bv32, y: bv32, s: seq<Symbol>)
    ensures Xor(Run(x, s), Run(y, s)) == Steps(|s|, Xor(x, y))
  {
    hide Xor, Step;
    if s != [] {
      var t, d := s[..|s| - 1], s[|s| - 1];
      CommonRun(x, y, t);
      OneSymbol(Run(x, t), Run(y, t), d, d);
      XorLaws(d, d);
      XorLaws(Step(Xor(Run(x, t), Run(y, t))), 0);
    }
  }

  lemma OneSymbol(x: bv32, y: bv32, d: Symbol, e: Symbol)
    ensures Xor(Xor(Step(x), d), Xor(Step(y), e)) == Xor(Step(Xor(x, y)), Xor(d, e))
  {
    hide Xor, Step;
    XorSwap(Step(x), d, Step(y), e);
    StepLinear(x, y);
  }

  // A common stretch, and then a symbol each.
  lemma Stretch(x: bv32, y: bv32, s: seq<Symbol>, d: Symbol, e: Symbol)
    ensures Xor(Run(x, s + [d]), Run(y, s + [e])) == Xor(Steps(|s| + 1, Xor(x, y)), Xor(d, e))
  {
    hide Xor, Step, Run;
    RunSnoc(x, s, d);
    RunSnoc(y, s, e);
    CommonRun(x, y, s);
    OneSymbol(Run(x, s), Run(y, s), d, e);
  }

  lemma SymbolXor(d: Symbol, e: Symbol)
    ensures Xor(d, e) < 32 && (Xor(d, e) == 0 <==> d == e)
  {
  }

  lemma {:induction false} StepsLinear(k: nat, x: bv32, y: bv32)
    ensures Steps(k, Xor(x, y)) == Xor(Steps(k, x), Steps(k, y))
  {
    hide Xor, Step;
    if k > 0 {
      StepsLinear(k - 1, x, y);
      StepLinear(Steps(k - 1, x), Steps(k - 1, y));
    }
  }

  lemma {:induction false} StepsAdd(j: nat, k: nat, x: bv32)
    ensures Steps(k, Steps(j, x)) == Steps(j + k, x)
  {
    hide Step;
    if k > 0 { StepsAdd(j, k - 1, x); }
  }

  // Symbol strings of equal length that differ at most at the places i < j < l,
  // fewer than 1023 apart, never lead to the same state.
  lemma ThreeDetected(c: bv32, s: seq<Symbol>, t: seq<Symbol>, i: nat, j: nat, l: nat)
    requires c < LIMIT && i < j < l < |s| && l - i < 1023 && AgreeBut(s, t, i, j, l) && s != t
    ensures Run(c, s) != Run(c, t)
  {
    hide Xor, Run, Steps, AgreeBut;
    InParts(s, t, i, j, l);
    if Run(c, s) == Run(c, t) {
      Cancelled(c, s[..i], s[i + 1..j], s[j + 1..l], s[l + 1..], s[i], t[i], s[j], t[j], s[l], t[l]);
    }
  }

  ghost predicate AgreeBut<T>(s: seq<T>, t: seq<T>, i: nat, j: nat, l: nat) {
    |s| == |t| && forall k :: 0 <= k < |s| && k != i && k != j && k != l ==> s[k] == t[k]
  }

  // A string with three places singled out.
  function Around<T>(p: seq<T>, d0: T, q: seq<T>, d1: T, m: seq<T>, d2: T): seq<T> {
    ((p + [d0]) + (q + [d1])) + (m + [d2])
  }

  lemma InParts<T>(s: seq<T>, t: seq<T>, i: nat, j: nat, l: nat)
    requires i < j < l < |s| && AgreeBut(s, t, i, j, l)
    ensures |s| == |t|
    ensures s == Around(s[..i], s[i], s[i + 1..j], s[j], s[j + 1..l], s[l]) + s[l + 1..]
    ensures t == Around(s[..i], t[i], s[i + 1..j], t[j], s[j + 1..l], t[l]) + s[l + 1..]
  {
  }

  lemma Cancelled(c: bv32, p: seq<Symbol>, q: seq<Symbol>, m: seq<Symbol>, r: seq<Symbol>,
                  d0: Symbol, e0: Symbol, d1: Symbol, e1: Symbol, d2: Symbol, e2: Symbol)
    requires c < LIMIT && |q| + |m| < 1021
    requires Run(c, Around(p, d0, q, d1, m, d2) + r) == Run(c, Around(p, e0, q, e1, m, e2) + r)
    ensures d0 == e0 && d1 == e1 && d2 == e2
  {
    hide Xor, Run, Steps, Around;
    DifferenceAfter(c, p, q, m, d0, e0, d1, e1, d2, e2);
    SameEnd(c, Around(p, d0, q, d1, m, d2), Around(p, e0, q, e1, m, e2), r);
    SymbolXor(d0, e0);
    SymbolXor(d1, e1);
    SymbolXor(d2, e2);
    NoCancellation(Xor(d0, e0), Xor(d1, e1), Xor(d2, e2), |q| + |m| + 2, |m| + 1);
  }

  lemma SameEnd(c: bv32, a: seq<Symbol>, b: seq<Symbol>, r: seq<Symbol>)
    requires c < LIMIT && Run(c, a + r) == Run(c, b + r)
    ensures Xor(Run(c, a), Run(c, b)) == 0
  {
    hide Xor, Run;
    RunConcat(c, a, r);
    RunConcat(c, b, r);
    RunBound(c, a);
    RunBound(c, b);
    RunInjective(Run(c, a), Run(c, b), r);
    XorLaws(Run(c, a), Run(c, b));
  }

  lemma DifferenceAfter(c: bv32, p: seq<Symbol>, q: seq<Symbol>, m: seq<Symbol>,
                        d0: Symbol, e0: Symbol, d1: Symbol, e1: Symbol, d2: Symbol, e2: Symbol)
    ensures Xor(Run(c, Around(p, d0, q, d1, m, d2)), Run(c, Around(p, e0, q, e1, m, e2)))
         == Xor(Xor(Steps(|q| + |m| + 2, Xor(d0, e0)), Steps(|m| + 1, Xor(d1, e1))), Xor(d2, e2))
  {
    hide Xor, Step, Run, Steps;
    var x0, y0 := Run(c, p + [d0]), Run(c, p + [e0]);
    var x1, y1 := Run(x0, q + [d1]), Run(y0, q + [e1]);
    RunConcat(c, p + [d0], q + [d1]);
    RunConcat(c, p + [e0], q + [e1]);
    RunConcat(c, (p + [d0]) + (q + [d1]), m + [d2]);
    RunConcat(c, (p + [e0]) + (q + [e1]), m + [e2]);
    FirstSymbol(c, p, d0, e0);
    Stretch(x0, y0, q, d1, e1);
    Stretch(x1, y1, m, d2, e2);
    StepsLinear(|m| + 1, Steps(|q| + 1, Xor(d0, e0)), Xor(d1, e1));
    StepsAdd(|q| + 1, |m| + 1, Xor(d0, e0));
  }

  lemma FirstSymbol(c: bv32, p: seq<Symbol>, d: Symbol, e: Symbol)
    ensures Xor(Run(c, p + [d]), Run(c, p + [e])) == Xor(d, e)
  {
    hide Xor, Step, Run;
    RunSnoc(c, p, d);
    RunSnoc(c, p, e);
    XorSwap(Step(Run(c, p)), d, Step(Run(c, p)), e);
    XorLaws(Step(Run(c, p)), 0);
    XorLaws(0, Xor(d, e));
    XorLaws(Xor(d, e), 0);
  }
}
