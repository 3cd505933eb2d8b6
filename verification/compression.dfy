/** Compressed public keys: what the two conversions compute, and for exactly
    which keys decompression undoes compression. */
module Compression {
  import opened Bits
  import opened Curve
  import opened CurveGroup
  import opened Ecdsa
  import opened EcdsaSpec
  import opened Limbs
  import opened Montgomery
  import opened Numbers
  import opened Points
  import Quadratic

  // The candidate square root for p = 3 mod 4.
  ghost function Root(a: int, p: int): (t: int)
    requires p > 3
    ensures 0 <= t < p
  {
    Pow(a, p / 4 + 1) % p
  }

  lemma FermatSquare(y: int, p: int)
    requires IsPrime(p)
    ensures Pow(y, p + 1) % p == (y * y) % p
  {
    PowAdd(y, p - 1, 2);
    PowTwo(y);
    hide Pow;
    ModSmall(0, p);
    ModSmall(1, p);
    if y % p == 0 {
      CongMul(y, 0, y, 0, p);
      CongMul(Pow(y, p - 1), Pow(y, p - 1), y * y, 0, p);
    } else {
      Fermat(y, p);
      CongMul(Pow(y, p - 1), 1, y * y, y * y, p);
    }
  }

  // The candidate root of y^2 is y or -y.
  lemma RootOfSquare(y: int, a: int, p: int)
    requires IsPrime(p) && p > 3 && p % 4 == 3 && a % p == (y * y) % p
    ensures Root(a, p) == y % p || Root(a, p) == (-y) % p
  {
    PowTwo(y);
    hide Pow;
    var e := p / 4 + 1;
    CongPow(a, y * y, e, p);
    PowMul(y, 2, e);
    PowAdd(y, 2 * e, 2 * e);
    FermatSquare(y, p);
    EqualSquares(Pow(y, 2 * e), y, p);
  }

  lemma EqualSquares(t: int, y: int, p: int)
    requires IsPrime(p) && (t * t) % p == (y * y) % p
    ensures t % p == y % p || t % p == (-y) % p
  {
    ModSmall(0, p);
    CongSub(t * t, y * y, y * y, y * y, p);
    assert t * t - y * y == (t - y) * (t - (-y));
    Euclid(t - y, t - (-y), p);
    Vanish(t, y, p);
    Vanish(t, -y, p);
  }

  ghost predicate SquareRoot(y: int, a: int, p: int)
    requires p > 0
  {
    (y * y) % p == a % p
  }

  // So it is a root exactly when there is one.
  lemma RootIff(a: int, p: int)
    requires IsPrime(p) && p > 3 && p % 4 == 3
    ensures SquareRoot(Root(a, p), a, p) <==> Quadratic.IsSquare(a, p)
  {
    hide Root;
    var t := Root(a, p);
    if Quadratic.IsSquare(a, p) {
      var y :| 0 <= y < p && (y * y) % p == a % p;
      RootOfSquare(y, a, p);
      ModMod(y, p);
      ModMod(-y, p);
      SameSquare(t, y, p);
    }
  }

  lemma SameSquare(t: int, y: int, p: int)
    requires p > 0 && (t % p == y % p || t % p == (-y) % p)
    ensures (t * t) % p == (y * y) % p
  {
    if t % p == y % p { CongMul(t, y, t, y, p); } else { CongMul(t, -y, t, -y, p); }
    assert (-y) * (-y) == y * y;
  }

  // The limbs' parity bit of the number held as Montgomery form.
  ghost function HeldParity(y: int, p: int): int
    requires p > 0
  {
    ((y * Power(B, 8)) % p) % 2
  }

  // y and -y are held by limbs of opposite parity, unless y is 0.
  lemma OppositeParity(y: int, p: int)
    requires p > 0 && p % 2 == 1 && (y * Power(B, 8)) % p != 0
    ensures HeldParity((-y) % p, p) == 1 - HeldParity(y, p)
  {
    Negated(y, Power(B, 8), p);
  }

  lemma Negated(y: int, r: int, p: int)
    requires p > 0 && (y * r) % p != 0
    ensures (((-y) % p) * r) % p == p - (y * r) % p
  {
    var v := (y * r) % p;
    ModMul(-y, r, p);
    DivMod(y * r, p);
    assert (-y) * r == -(y * r);
    DivModUnique(-(y * r), p, -((y * r) / p) - 1, p - v);
  }

  // comp := the parity prefix and the abscissa of a valid key
  method Compress(d: Domain, comp: array<Byte>, unc: array<Byte>) returns (ret: int)
    requires d.Good() && comp.Length >= 33 && unc.Length >= 64 && comp != unc
    modifies comp
    ensures ret == if ValidKey(d.C(), At(unc, 0), At(unc, 32)) then SUCCESS else INVALID_PUBKEY
    ensures ret == SUCCESS ==> comp[0] == (if At(unc, 32) % 2 == 1 then 3 else 2) && At(comp, 1) == At(unc, 0)
  {
    var x := new Word[8];
    var y := new Word[8];
    ret := PointFromBytes(d, x, y, unc, 0);
    if ret != 0 {
      return INVALID_PUBKEY;
    }
    d.p.Done(y);
    LowBit(y[..]);
    comp[0] := if BitAnd(y[0], 1) == 1 then 3 else 2;
    for i := 0 to 32
      invariant comp[0] == (if At(unc, 32) % 2 == 1 then 3 else 2) && unc[..] == old(unc[..])
      invariant forall k :: 0 <= k < i ==> comp[k + 1] == unc[k]
    {
      comp[i + 1] := unc[i];
    }
    assert comp[1..33] == unc[0..32];
    return SUCCESS;
  }

  // rhs := x^3 - 3x + b
  method RightHandSide(d: Domain, rhs: array<Word>, x: array<Word>)
    requires d.Good() && d.E(x) && rhs.Length == 8 && rhs != x
    modifies rhs
    ensures d.E(rhs) && d.F(rhs) == Rhs(d.C(), d.F(x)) % d.P()
  {
    var lhs := new Word[8];
    var bs := Load(d.b);
    d.CheckRun(lhs, rhs, x, x, bs);
    assert d.F(bs) == d.C().b;
    RhsProgram(d.C(), d.F(x), d.F(rhs));
  }

  // y := the candidate root of rhs
  method TakeRoot(d: Domain, y: array<Word>, rhs: array<Word>)
    requires d.Good() && d.E(rhs) && y.Length == 8 && y != rhs && d.P() % 4 == 3
    modifies y
    ensures d.E(y) && d.F(y) == Root(d.F(rhs), d.P())
  {
    var e := Load(d.p.m);
    U256RShift(e, 2);
    assert Pow(2, 1) == 2 && Pow(2, 2) == 4;
    var one := new Word[8];
    U256Set32(one, 1);
    ghost var q := Val(e[..]);
    ValBound(d.p.m);
    var carry := U256Add(e, e, one);
    ValBound(e[..]);
    NoCarry(q, carry, Val(e[..]), Power(B, 8), d.P());
    d.p.PowM(y, rhs, e);
  }

  lemma NoCarry(q: int, carry: int, v: int, r: int, p: int)
    requires q == p / 4 && 4 < p < r && (carry == 0 || carry == 1) && 0 <= v && v + carry * r == q + 1
    ensures v == q + 1
  {
  }

  // The ordinate decompression ends with: the root whose limbs have the
  // parity of the prefix.
  ghost function Ordinate(c: Params, x: int, prefix: int): int
    requires c.p > 3
  {
    var t := Root(Rhs(c, x) % c.p, c.p);
    if HeldParity(t, c.p) == prefix % 2 then t else (-t) % c.p
  }

  // y := p - y if the low bit of its limbs is not the wanted one
  method FixParity(d: Domain, y: array<Word>, prefix: Byte)
    requires d.Valid() && d.E(y) && y.Length == 8
    modifies y
    ensures d.F(y) == if HeldParity(old(d.F(y)), d.P()) == prefix % 2 then old(d.F(y)) else (-old(d.F(y))) % d.P()
  {
    LowBit(y[..]);
    LowBitOf(prefix);
    EncOfDec(Val(y[..]), d.P(), d.p.ni);
    ModSmall(Val(y[..]), d.P());
    if BitAnd(y[0], 1) != BitAnd(prefix, 1) {
      var ms := Load(d.p.m);
      HeldModulus(d, ms);
      d.p.Sub(y, ms, y);
    }
  }

  // unc := the key of a compressed one; it reports success for every reduced x
  method Uncompress(d: Domain, unc: array<Byte>, pub: array<Byte>) returns (ret: int)
    requires d.Good() && d.P() % 4 == 3 && unc.Length >= 64 && pub.Length >= 33 && unc != pub
    modifies unc
    ensures ret == if At(pub, 1) < d.P() then SUCCESS else -1
    ensures ret == SUCCESS ==> At(unc, 0) == At(pub, 1) && At(unc, 32) == Ordinate(d.C(), At(pub, 1), pub[0])
  {
    hide Val, Dec, BigEndian, Rhs, Root, HeldParity;
    var x := new Word[8];
    var y := new Word[8];
    var rhs := new Word[8];
    ret := d.p.FromBytes(x, pub, 1);
    if ret != 0 {
      return ret;
    }
    RightHandSide(d, rhs, x);
    TakeRoot(d, y, rhs);
    FixParity(d, y, pub[0]);
    d.p.ToBytes(unc, 0, x);
    ghost var first := unc[0..32];
    d.p.ToBytes(unc, 32, y);
    assert unc[0..32] == first;
    return SUCCESS;
  }

  // p itself is held as 0
  lemma HeldModulus(d: Domain, ms: array<Word>)
    requires d.Valid() && ms.Length == 8 && Val(ms[..]) == d.P()
    ensures d.F(ms) == 0
  {
    var p, w := d.P(), Power(InverseOfB(d.P(), d.p.ni), 8);
    ModSmall(0, p);
    assert p * w == 0 + w * p;
    ModShift(p * w, 0, w, p);
  }

  // Decompression answers with a curve point exactly when x is the abscissa
  // of one.
  lemma UncompressOnCurve(c: Params, x: int, prefix: int)
    requires Sound(c) && c.p % 4 == 3 && 0 <= x < c.p
    ensures ValidKey(c, x, Ordinate(c, x, prefix)) <==> Quadratic.IsSquare(Rhs(c, x) % c.p, c.p)
  {
    hide Root, Quadratic.IsSquare;
    var p, a := c.p, Rhs(c, x);
    var t := Root(a % p, p);
    ModMod(a, p);
    RootIff(a % p, p);
    DivMod(-t, p);
    ModMod(-t, p);
    SameSquare((-t) % p, t, p);
  }

  // The prefix counts by its last bit, and picks one of two opposite roots.
  lemma OrdinateByParity(c: Params, x: int, prefix: int)
    requires c.p > 3
    ensures Ordinate(c, x, prefix) == Ordinate(c, x, if prefix % 2 == 1 then 3 else 2)
    ensures (Ordinate(c, x, 2) + Ordinate(c, x, 3)) % c.p == 0
  {
    hide Root, HeldParity;
    var t := Root(Rhs(c, x) % c.p, c.p);
    BitOfHeld(t, c.p);
    ModSmall(0, c.p);
    ModMod(-t, c.p);
    CongAdd(t, t, (-t) % c.p, -t, c.p);
  }

  lemma BitOfHeld(y: int, p: int)
    requires p > 0
    ensures HeldParity(y, p) == 0 || HeldParity(y, p) == 1
  {
  }

  // Decompression undoes compression exactly for the keys whose ordinate has
  // the same parity in plain and in Montgomery form; the others come back
  // negated.
  lemma RoundTripIff(c: Params, ni: int, x: int, y: int, prefix: int)
    requires Sound(c) && c.p % 4 == 3 && NegInverse(c.p, ni) && ValidKey(c, x, y)
    requires prefix == if y % 2 == 1 then 3 else 2
    ensures Ordinate(c, x, prefix) == y || Ordinate(c, x, prefix) == (-y) % c.p
    ensures Ordinate(c, x, prefix) == y <==> HeldParity(y, c.p) == y % 2
  {
    var p, a := c.p, Rhs(c, x) % c.p;
    var t := Root(a, p);
    ModMod(Rhs(c, x), p);
    RootOfSquare(y, a, p);
    ModSmall(y, p);
    if y == 0 {
      ModSmall(0, p);
    } else {
      HeldNonzero(y, p, ni);
      OppositeParity(y, p);
      DivModUnique(-y, p, -1, p - y);
      DivModUnique(-(p - y), p, -1, y);
    }
  }

  lemma HeldNonzero(y: int, p: int, ni: int)
    requires NegInverse(p, ni) && 0 < y < p
    ensures (y * Power(B, 8)) % p != 0
  {
    if (y * Power(B, 8)) % p == 0 {
      ModSmall(0, p);
      CancelR(y, 0, p, ni);
      ModSmall(y, p);
    }
  }
}
