/** Arithmetic modulo an odd 256-bit number in the Montgomery domain: the
    `m256_*` layer. A number d is held as d * 2^256 mod m. */
module Montgomery {
  import opened Bits
  import opened Limbs
  import opened Numbers

  // ------------------------------------------------ the Montgomery domain

  // ni = -1/m modulo 2^32, so ni * m + 1 is a multiple of 2^32 and the
  // quotient inverts 2^32 modulo m.
  ghost predicate NegInverse(m: int, ni: int) {
    m > 0 && 0 <= ni && (ni * m + 1) % B == 0
  }

  ghost function InverseOfB(m: int, ni: int): int {
    (ni * m + 1) / B
  }

  lemma InverseOfBWorks(m: int, ni: int)
    requires NegInverse(m, ni)
    ensures (B * InverseOfB(m, ni)) % m == 1 % m
  {
    var t := InverseOfB(m, ni);
    DivMod(ni * m + 1, B);
    assert B * t == 1 + ni * m;
    ModShift(B * t, 1, ni, m);
  }

  // The number held as v.
  ghost function Dec(v: int, m: int, ni: int): (d: int)
    requires m > 0
    ensures 0 <= d < m
  {
    (v * Power(InverseOfB(m, ni), 8)) % m
  }

  lemma {:induction false} PowerInverse(b: int, t: int, n: nat, m: int)
    requires m > 0 && (b * t) % m == 1 % m
    ensures (Power(b, n) * Power(t, n)) % m == 1 % m
  {
    PowerIsPow(b, n);
    PowerIsPow(t, n);
    PowBase(b, t, n);
    CongPow(b * t, 1, n, m);
    PowOne(n);
  }

  lemma InverseOfR(m: int, ni: int)
    requires NegInverse(m, ni)
    ensures (Power(B, 8) * Power(InverseOfB(m, ni), 8)) % m == 1 % m
  {
    InverseOfBWorks(m, ni);
    PowerInverse(B, InverseOfB(m, ni), 8, m);
  }

  // Dec undoes multiplication by 2^256.
  lemma DecOfEnc(d: int, v: int, m: int, ni: int)
    requires NegInverse(m, ni) && v % m == (d * Power(B, 8)) % m
    ensures Dec(v, m, ni) == d % m
  {
    var r, t := Power(B, 8), Power(InverseOfB(m, ni), 8);
    InverseOfR(m, ni);
    CongMul(v, d * r, t, t, m);
    MulAssoc(d, r, t);
    CongMul(d, d, r * t, 1, m);
  }

  lemma EncOfDec(v: int, m: int, ni: int)
    requires NegInverse(m, ni)
    ensures (Dec(v, m, ni) * Power(B, 8)) % m == v % m
  {
    var r, t := Power(B, 8), Power(InverseOfB(m, ni), 8);
    InverseOfR(m, ni);
    ModMul(v * t, r, m);
    assert (v * t) * r == v * (r * t) by { MulAssoc(v, t, r); }
    CongMul(v, v, r * t, 1, m);
  }

  // Representatives below m are determined by what they hold.
  lemma DecInjective(v: int, w: int, m: int, ni: int)
    requires NegInverse(m, ni) && 0 <= v < m && 0 <= w < m && Dec(v, m, ni) == Dec(w, m, ni)
    ensures v == w
  {
    EncOfDec(v, m, ni);
    EncOfDec(w, m, ni);
    ModSmall(v, m);
    ModSmall(w, m);
  }

  lemma DecMul(z: int, x: int, y: int, m: int, ni: int)
    requires NegInverse(m, ni) && (z * Power(B, 8)) % m == (x * y) % m
    ensures Dec(z, m, ni) == (Dec(x, m, ni) * Dec(y, m, ni)) % m
  {
    var r, t := Power(B, 8), Power(InverseOfB(m, ni), 8);
    InverseOfR(m, ni);
    // z = z r t = x y t, so z t = (x t)(y t)
    CongMul(z * r, x * y, t * t, t * t, m);
    assert (z * r) * (t * t) == (z * t) * (r * t) by { MulSwap(z, r, t, t); }
    assert (x * y) * (t * t) == (x * t) * (y * t) by { MulSwap(x, y, t, t); }
    CongMul(z * t, z * t, r * t, 1, m);
    ModMul(x * t, y * t, m);
  }

  lemma DecAdd(z: int, x: int, y: int, m: int, ni: int)
    requires m > 0 && z % m == (x + y) % m
    ensures Dec(z, m, ni) == (Dec(x, m, ni) + Dec(y, m, ni)) % m
  {
    var t := Power(InverseOfB(m, ni), 8);
    CongMul(z, x + y, t, t, m);
    assert (x + y) * t == x * t + y * t;
    ModMod(x * t, m);
    ModMod(y * t, m);
    CongAdd(x * t, Dec(x, m, ni), y * t, Dec(y, m, ni), m);
  }

  lemma DecSub(z: int, x: int, y: int, m: int, ni: int)
    requires m > 0 && z % m == (x - y) % m
    ensures Dec(z, m, ni) == (Dec(x, m, ni) - Dec(y, m, ni)) % m
  {
    var t := Power(InverseOfB(m, ni), 8);
    CongMul(z, x - y, t, t, m);
    assert (x - y) * t == x * t - y * t;
    ModMod(x * t, m);
    ModMod(y * t, m);
    CongSub(x * t, Dec(x, m, ni), y * t, Dec(y, m, ni), m);
  }

  // ------------------------------------------ one step of HAC 14.36

  // The low word cancels: u is chosen so that a + x*y + u*m is 0 mod 2^32.
  lemma LowWordCancels(a: int, a0: Word, x: Word, y: int, y0: Word, u: int, m: int, ni: int)
    requires a % B == a0 && y % B == y0
    requires NegInverse(m, ni) && u == ((a0 + x * y0) * ni) % B
    ensures (a + x * y + u * m) % B == 0
  {
    var s, t := a + x * y, a0 + x * y0;
    ModMod(a, B);
    ModMod(y, B);
    CongMul(x, x, y, y0, B);
    CongAdd(a, a0, x * y, x * y0, B);
    ModMod(t * ni, B);
    CongMul(u, t * ni, m, m, B);
    CongAdd(s, t, u * m, (t * ni) * m, B);
    MulAssoc(t, ni, m);
    assert t + t * (ni * m) == t * (ni * m + 1);
    ModSmall(0, B);
    CongMul(t, t, ni * m + 1, 0, B);
  }

  // a stays below y + m, hence below 2m, and the carry is at most one bit.
  lemma StepBound(a: int, a': int, x: Word, y: int, u: Word, m: int)
    requires 0 <= a < y + m && 0 <= y < m && B * a' == a + x * y + u * m
    ensures 0 <= a' < y + m
  {
    MulLe(x, B - 1, y);
    MulLe(u, B - 1, m);
    MulLe(0, x, y);
    MulLe(0, u, m);
    assert (B - 1) * y + (B - 1) * m == B * (y + m) - (y + m);
  }

  // The quantity a * B^i keeps tracking x[..i] * y up to multiples of m.
  lemma StepTrack(a: int, a': int, x: seq<Word>, i: nat, y: int, u: int, m: int, k: int)
    requires i < |x| && B * a' == a + x[i] * y + u * m
    requires a * Power(B, i) == Val(x[..i]) * y + k * m
    ensures a' * Power(B, i + 1) == Val(x[..i + 1]) * y + (k + u * Power(B, i)) * m
  {
    var q := Power(B, i);
    PowerStep(B, i);
    ValSnoc(x, i);
    ShiftPow(x[i], i);
    var v, w := Val(x[..i]), x[i];
    assert a' * (B * q) == (B * a') * q;
    assert (a + w * y + u * m) * q == a * q + (w * q) * y + (u * q) * m by {
      assert (w * y) * q == (w * q) * y;
      assert (u * m) * q == (u * q) * m;
    }
    assert (v + w * q) * y == v * y + (w * q) * y;
    assert (k + u * q) * m == k * m + (u * q) * m;
  }

  // The borrow of x - y and the carry of adding m back cancel out.
  lemma SubWraps(a: int, b: int, m: int, carry: int, dropped: int, v: int, w: int, r: int)
    requires 0 <= a <= m && 0 <= b < m && (dropped == 0 || dropped == 1)
    requires carry == if a < b then 1 else 0
    requires v == carry * r + a - b && 0 <= w < r && w + dropped * r == v + m
    ensures (if carry == 1 then w else v) == (if a < b then a - b + m else a - b)
    ensures (if carry == 1 then w else v) % m == (a - b) % m
  {
    assert dropped * r == if dropped == 1 then r else 0;
    assert carry * r == if carry == 1 then r else 0;
    ModShift(if carry == 1 then w else v, a - b, carry, m);
  }

  // One bit of right-to-left exponentiation: e has bit b at weight w.
  lemma PowBit(a: int, e: nat, w: nat, b: int, z: int, s: int, m: int)
    requires m > 0 && (b == 0 || b == 1)
    requires z == Pow(a, e) % m && s == Pow(a, w) % m
    ensures (if b == 1 then (z * s) % m else z) == Pow(a, e + b * w) % m
    ensures (s * s) % m == Pow(a, 2 * w) % m
  {
    PowAdd(a, e, w);
    PowAdd(a, w, w);
    ModMul(Pow(a, e), Pow(a, w), m);
    ModMul(Pow(a, w), Pow(a, w), m);
  }

  // The constants that go with a modulus. They are read-only data: a method
  // that needs one as an operand loads it into a scratch array first.
  datatype Modulus = Modulus(m: seq<Word>, r2: seq<Word>, ni: Word) {

    // m odd (which ni presupposes), r2 = 2^512 mod m, ni = -1/m mod 2^32
    ghost predicate Valid() {
      && |m| == 8 && |r2| == 8
      && M() > 1
      && M() % 2 == 1
      && Val(r2) == (Power(B, 8) * Power(B, 8)) % M()
      && NegInverse(M(), ni)
    }

    ghost function M(): int {
      Val(m)
    }

    // The residue held by the array a.
    ghost function F(a: array<Word>): int
      requires Valid()
      reads a
    {
      Dec(Val(a[..]), M(), ni)
    }

    // a holds a reduced residue
    ghost predicate Elem(a: array<Word>)
      reads a
    {
      a.Length == 8 && 0 <= Val(a[..]) < M()
    }

    // z := x + y mod m
    method Add(z: array<Word>, x: array<Word>, y: array<Word>)
      requires Valid() && z.Length == 8 && Elem(x) && Elem(y)
      modifies z
      ensures Elem(z) && Val(z[..]) == (Val(old(x[..])) + Val(old(y[..]))) % M()
      ensures F(z) == FAdd(old(F(x)), old(F(y)), M())
    {
      ghost var a, b, mm := Val(x[..]), Val(y[..]), M();
      var r := new Word[8];
      var carryAdd := U256Add(z, x, y);
      ghost var v := Val(z[..]);
      var ms := Load(m);
      var carrySub := U256Sub(r, z, ms);
      ValBound(z[..]);
      ValBound(m);
      var useSub := BitOr(carryAdd, 1 - carrySub);
      U256CMov(z, r, useSub);
      if useSub == 1 {
        DivModUnique(a + b, mm, 1, Val(z[..]));
      } else {
        DivModUnique(a + b, mm, 0, Val(z[..]));
      }
      ModMod(a + b, mm);
      DecAdd(Val(z[..]), a, b, mm, ni);
    }

    // z := x - y mod m; x = m is let through, and then m - y comes out
    method Sub(z: array<Word>, x: array<Word>, y: array<Word>)
      requires Valid() && z.Length == 8 && x.Length == 8 && 0 <= Val(x[..]) <= M() && Elem(y)
      modifies z
      ensures var diff := Val(old(x[..])) - Val(old(y[..])); Val(z[..]) == if diff < 0 then diff + M() else diff
      ensures old(Elem(x)) ==> Elem(z)
      ensures F(z) == FSub(old(F(x)), old(F(y)), M())
    {
      ghost var a, b, mm := Val(x[..]), Val(y[..]), M();
      var r := new Word[8];
      var carry := U256Sub(z, x, y);
      ghost var v := Val(z[..]);
      var ms := Load(m);
      var dropped := U256Add(r, z, ms);
      ValBound(r[..]);
      ghost var w := Val(r[..]);
      SubWraps(a, b, mm, carry, dropped, v, w, Power(B, 8));
      U256CMov(z, r, carry);
      assert Val(z[..]) == if carry == 1 then w else v;
      DecSub(Val(z[..]), a, b, mm, ni);
    }

    // One round of the multiplication: a := (a + x*y + u*m) / 2^32.
    method MulStep(a: array<Word>, x: Word, y: array<Word>) returns (ghost u: Word)
      requires Valid() && a.Length == 9 && Elem(y)
      requires 0 <= Val(a[..]) < Val(y[..]) + M()
      requires a != y
      modifies a
      ensures B * Val(a[..]) == Val(old(a[..])) + x * Val(y[..]) + u * M()
      ensures 0 <= Val(a[..]) < Val(y[..]) + M()
    {
      ghost var v, w, mm := Val(a[..]), Val(y[..]), M();
      var v0 := a[0];
      var uu := ((a[0] + x * y[0]) * ni) % B;
      u := uu;
      LowLimb(a[..]);
      LowLimb(y[..]);
      LowWordCancels(v, v0, x, w, y[0], uu, mm, ni);
      var c := U288MulAdd(a, x, y);
      ghost var v1 := Val(a[..]);
      var ms := Load(m);
      var c' := U288MulAdd(a, uu, ms);
      ghost var v2 := Val(a[..]);
      LowLimb(a[..]);
      ghost var total := v + x * w + uu * mm;
      ValBound(a[..]);
      ValBound(m);
      RoundTotal(v, x, w, uu, mm, v1, c, v2, c');
      c := c + c';
      assert v2 + c * (B * Power(B, 8)) == total;
      U288RShift32(a, c);
      TopIsZero(v2, c, total, Power(B, 8));
      StepBound(v, Val(a[..]), x, w, uu, mm);
    }

    // The eight rounds: a < 2m at every step, and a * 2^256 is x * y + k * m.
    method MulLoop(x: array<Word>, y: array<Word>) returns (a: array<Word>, ghost k: int)
      requires Valid() && x.Length == 8 && Elem(y)
      ensures fresh(a) && a.Length == 9
      ensures 0 <= Val(a[..]) < 2 * M()
      ensures Val(a[..]) * Power(B, 8) == Val(x[..]) * Val(y[..]) + k * M()
    {
      ghost var xs, ys, mm := x[..], y[..], M();
      a := new Word[9];
      for i := 0 to 9
        invariant forall k :: 0 <= k < i ==> a[..][k] == 0
      {
        a[i] := 0;
      }
      ValZero(a[..]);
      PowerStep(B, 0);
      k := 0;
      for i := 0 to 8
        invariant x[..] == xs && y[..] == ys
        invariant 0 <= Val(a[..]) < Val(ys) + mm
        invariant Val(a[..]) * Power(B, i) == Val(xs[..i]) * Val(ys) + k * mm
      {
        ghost var v := Val(a[..]);
        ghost var u := MulStep(a, x[i], y);
        StepTrack(v, Val(a[..]), xs, i, Val(ys), u, mm, k);
        k := k + u * Power(B, i);
      }
      assert xs[..8] == xs;
    }

    // z := x * y / 2^256 mod m, for any x and any y < m; z may be x or y
    method Mul(z: array<Word>, x: array<Word>, y: array<Word>)
      requires Valid() && z.Length == 8 && x.Length == 8 && Elem(y)
      modifies z
      ensures Elem(z) && (Val(z[..]) * Power(B, 8)) % M() == (Val(old(x[..])) * Val(old(y[..]))) % M()
      ensures F(z) == FMul(old(F(x)), old(F(y)), M())
    {
      ghost var v, w, mm := Val(x[..]), Val(y[..]), M();
      var a, k := MulLoop(x, y);
      ghost var t := Val(a[..]);
      FinalSubtract(z, a);
      ModShift(t * Power(B, 8), v * w, k, mm);
      ModMod(t, mm);
      CongMul(Val(z[..]), t, Power(B, 8), Power(B, 8), mm);
      DecMul(Val(z[..]), v, w, mm, ni);
    }

    // z := a mod m for the 288-bit a < 2m
    method FinalSubtract(z: array<Word>, a: array<Word>)
      requires Valid() && z.Length == 8 && a.Length == 9
      requires 0 <= Val(a[..]) < 2 * M() && z != a
      modifies z
      ensures Val(z[..]) == Val(a[..]) % M() && Elem(z)
    {
      ghost var v, mm, lo := Val(a[..]), M(), Val(a[..8]);
      assert a[..][..8] == a[..8] && a[..][..9] == a[..];
      ValSnoc(a[..], 8);
      ShiftPow(a[8], 8);
      ValBound(a[..8]);
      ValBound(m);
      TopBit(lo, a[8], v, mm, Power(B, 8));
      var carryAdd := a[8]; // 0 or 1 since a < 2m
      var ms := Load(m);
      var carrySub := U256Sub(z, a, ms);
      var useSub := BitOr(carryAdd, 1 - carrySub);
      U256CMov(z, a, 1 - useSub);
      if carryAdd == 1 {
        DivModUnique(v, mm, 1, v - mm);
      } else if carrySub == 0 {
        DivModUnique(v, mm, 1, v - mm);
      } else {
        ModSmall(v, mm);
      }
    }

    // z := z * 2^256 mod m, for any 256-bit z
    method Prep(z: array<Word>)
      requires Valid() && z.Length == 8
      modifies z
      ensures Elem(z) && F(z) == Val(old(z[..])) % M()
      ensures Val(z[..]) == (Val(old(z[..])) * Power(B, 8)) % M()
    {
      ghost var v := Val(z[..]);
      DivMod(Power(B, 8) * Power(B, 8), M());
      var r2s := Load(r2);
      Mul(z, z, r2s);
      PrepValue(Val(z[..]), v, Val(r2), M(), ni);
    }

    // z := z / 2^256 mod m, for any 256-bit z
    method Done(z: array<Word>)
      requires Valid() && z.Length == 8
      modifies z
      ensures Elem(z) && Val(z[..]) == old(F(z))
    {
      ghost var v, mm, d := Val(z[..]), M(), F(z);
      var one := new Word[8];
      U256Set32(one, 1);
      Mul(z, z, one);
      ghost var w := Val(z[..]);
      EncOfDec(v, mm, ni);
      assert v * 1 == v;
      CancelR(w, d, mm, ni);
      ModSmall(w, mm);
      ModSmall(d, mm);
    }

    // z := the Montgomery form of a 32-bit number
    method Set32(z: array<Word>, x: Word)
      requires Valid() && z.Length == 8
      modifies z
      ensures Elem(z) && F(z) == x % M()
      ensures x == 0 ==> Val(z[..]) == 0
    {
      U256Set32(z, x);
      Prep(z);
      if x == 0 { ModSmall(0, M()); }
    }

    // One exponent bit: z := z * base if it is set, then base := base^2.
    method PowStep(z: array<Word>, base: array<Word>, bit: int, ghost a: int, ghost e: nat, ghost w: nat)
      requires Valid() && Elem(z) && Elem(base) && z != base
      requires bit == 0 || bit == 1
      requires F(z) == Pow(a, e) % M() && F(base) == Pow(a, w) % M()
      modifies z, base
      ensures 0 <= bit * w && Elem(z) && Elem(base)
      ensures F(z) == Pow(a, e + bit * w) % M() && F(base) == Pow(a, 2 * w) % M()
    {
      PowBit(a, e, w, bit, F(z), F(base), M());
      if bit == 1 {
        Mul(z, z, base);
      }
      Mul(base, base, base);
    }

    // z := x^y, Montgomery form in and out; z may be x or y
    method PowM(z: array<Word>, x: array<Word>, y: array<Word>)
      requires Valid() && z.Length == 8 && Elem(x) && y.Length == 8
      modifies z
      ensures Val(old(y[..])) >= 0
      ensures Elem(z) && F(z) == Pow(old(F(x)), Val(old(y[..]))) % M()
    {
      ghost var a, e0 := F(x), Val(y[..]);
      ValBound(y[..]);
      var base := new Word[8];
      var exp := new Word[8];
      Copy(exp, y);
      Copy(base, x);
      U256Set32(z, 1);
      Prep(z);
      ModSmall(a, M());
      PowLoop(z, base, exp, a);
    }

    method PowLoop(z: array<Word>, base: array<Word>, exp: array<Word>, ghost a: int)
      requires Valid() && Elem(z) && Elem(base) && exp.Length == 8
      requires z != base && z != exp && base != exp && 0 <= Val(exp[..])
      requires F(z) == 1 % M() && F(base) == a % M()
      modifies z, base, exp
      ensures Elem(z) && F(z) == Pow(a, Val(old(exp[..]))) % M()
    {
      ghost var e0, mm := Val(exp[..]), M();
      ghost var e: nat, w: nat := 0, 1;
      var left := U256Diff0(exp);
      while left != 0
        invariant Elem(z) && Elem(base)
        invariant 0 <= Val(exp[..]) && (left == 0 <==> Val(exp[..]) == 0)
        invariant e + Val(exp[..]) * w == e0
        invariant F(z) == Pow(a, e) % mm && F(base) == Pow(a, w) % mm
        decreases Val(exp[..])
      {
        ghost var v := Val(exp[..]);
        LowBit(exp[..]);
        var bit := BitAnd(exp[0], 1);
        PowStep(z, base, bit, a, e, w);
        U256RShift(exp, 1);
        HalveExponent(v, bit, w);
        e := e + bit * w;
        w := 2 * w;
        left := U256Diff0(exp);
      }
    }

    // The 32 bits of one exponent limb, least significant first.
    method ScanLimb(z: array<Word>, bitval: array<Word>, limb: Word, ghost a: int, ghost e: nat, ghost w: nat)
      requires Valid() && Elem(z) && Elem(bitval) && z != bitval
      requires F(z) == Pow(a, e) % M() && F(bitval) == Pow(a, w) % M()
      modifies z, bitval
      ensures 0 <= limb * w && Elem(z) && Elem(bitval)
      ensures F(z) == Pow(a, e + limb * w) % M() && F(bitval) == Pow(a, B * w) % M()
    {
      ghost var mm := M();
      ghost var e': nat, w': nat := e, w;
      var rest := limb;
      WordCapacity();
      for j := 0 to 32
        invariant Elem(z) && Elem(bitval)
        invariant 0 <= rest < Power(2, 32 - j)
        invariant e' + rest * w' == e + limb * w && w' * Power(2, 32 - j) == w * B
        invariant F(z) == Pow(a, e') % mm && F(bitval) == Pow(a, w') % mm
      {
        LowBitOf(rest);
        var bit := BitAnd(rest, 1);
        PowStep(z, bitval, bit, a, e', w');
        HalveExponent(rest, bit, w');
        HalveRange(rest, w', 31 - j);
        rest := rest / 2;
        e' := e' + bit * w';
        w' := 2 * w';
      }
      assert rest == 0;
    }

    lemma NextLimb(es: seq<Word>, i: nat)
      requires i < |es|
      ensures Val(es[..i + 1]) == Val(es[..i]) + es[i] * Power(B, i) && Power(B, i + 1) == B * Power(B, i)
    {
      ValSnoc(es, i);
      ShiftPow(es[i], i);
      PowerStep(B, i);
    }

    // z := x^(m - 2), scanning the bits of m - 2 limb by limb; z may be x
    method Inv(z: array<Word>, x: array<Word>)
      requires Valid() && z.Length == 8 && Elem(x)
      requires m[0] >= 2
      modifies z
      ensures M() >= 2
      ensures Elem(z) && F(z) == Pow(old(F(x)), M() - 2) % M()
    {
      ghost var a, mm := F(x), M();
      var bitval := new Word[8];
      U256CMov(bitval, x, 1);
      Set32(z, 1);
      PowerStep(B, 0);
      ghost var es := [m[0] - 2] + m[1..];
      ExponentLimbs(m, es);
      ghost var w: nat := 1;
      ModSmall(a, mm);
      var i := 0;
      var limb: Word := m[i] - 2;
      while true
        invariant 0 <= i < 8 && limb == es[i]
        invariant Elem(z) && Elem(bitval) && fresh(bitval)
        invariant w == Power(B, i) && Val(es[..i]) >= 0
        invariant F(z) == Pow(a, Val(es[..i])) % mm && F(bitval) == Pow(a, w) % mm
        decreases 8 - i
      {
        ScanLimb(z, bitval, limb, a, Val(es[..i]), w);
        NextLimb(es, i);
        if i == 7 {
          break;
        }
        i := i + 1;
        limb := m[i];
        w := B * w;
      }
      assert es[..8] == es;
    }

    // z := the 32 big-endian bytes at off, in Montgomery form; -1 if not below m
    method FromBytes(z: array<Word>, p: array<Byte>, off: nat) returns (ret: int)
      requires Valid() && z.Length == 8 && off + 32 <= p.Length
      modifies z
      ensures ret == if BigEndian(p[off..off + 32]) < M() then 0 else -1
      ensures ret == 0 ==> Elem(z) && F(z) == BigEndian(p[off..off + 32])
    {
      U256FromBytes(z, p, off);
      var t := new Word[8];
      var ms := Load(m);
      var ltM := U256Sub(t, z, ms);
      if ltM != 1 {
        return -1;
      }
      Prep(z);
      ModSmall(BigEndian(p[off..off + 32]), M());
      return 0;
    }

    // 32 big-endian bytes at off := the number z holds
    method ToBytes(p: array<Byte>, off: nat, z: array<Word>)
      requires Valid() && z.Length == 8 && off + 32 <= p.Length
      modifies p
      ensures BigEndian(p[off..off + 32]) == F(z)
      ensures forall k :: 0 <= k < off || off + 32 <= k < p.Length ==> p[k] == old(p[k])
    {
      var zi := new Word[8];
      U256CMov(zi, z, 1);
      Done(zi);
      U256ToBytes(p, off, zi);
    }
  }

  // A scratch copy of constant data.
  method Load(s: seq<Word>) returns (a: array<Word>)
    ensures fresh(a) && a.Length == |s| && a[..] == s
  {
    a := new Word[|s|](i requires 0 <= i < |s| => s[i]);
  }

  method Copy(z: array<Word>, x: array<Word>)
    requires z.Length == 8 && x.Length == 8
    modifies z
    ensures z[..] == old(x[..])
  {
    for i := 0 to 8
      invariant forall k :: 0 <= k < i ==> z[k] == old(x[k])
      invariant forall k :: i <= k < 8 ==> z[k] == old(z[k]) && x[k] == old(x[k])
    {
      z[i] := x[i];
    }
  }

  // Multiplication by 2^256 is injective modulo m.
  lemma CancelR(v: int, w: int, m: int, ni: int)
    requires NegInverse(m, ni) && (v * Power(B, 8)) % m == (w * Power(B, 8)) % m
    ensures v % m == w % m
  {
    var r, t := Power(B, 8), Power(InverseOfB(m, ni), 8);
    InverseOfR(m, ni);
    CongMul(v * r, w * r, t, t, m);
    MulAssoc(v, r, t);
    MulAssoc(w, r, t);
    CongMul(v, v, r * t, 1, m);
    CongMul(w, w, r * t, 1, m);
  }

  // Multiplying by 2^512 mod m is multiplying by 2^256 twice.
  lemma PrepValue(w: int, v: int, r2: int, m: int, ni: int)
    requires NegInverse(m, ni) && 0 <= w < m
    requires r2 == (Power(B, 8) * Power(B, 8)) % m && (w * Power(B, 8)) % m == (v * r2) % m
    ensures w == (v * Power(B, 8)) % m && Dec(w, m, ni) == v % m
  {
    var r := Power(B, 8);
    ModMul(v, r * r, m);
    MulAssoc(v, r, r);
    CancelR(w, v * r, m, ni);
    ModSmall(w, m);
    DecOfEnc(v, w, m, ni);
  }

  lemma LowBitOf(w: nat)
    ensures BitAnd(w, 1) == w % 2
  {
    assert Pow(2, 1) == 2;
    AndOnes(w, 1);
  }

  lemma LowBit(s: seq<Word>)
    requires |s| > 0
    ensures BitAnd(s[0], 1) == s[0] % 2 == Val(s) % 2
  {
    LowBitOf(s[0]);
    ValCons(s);
    var v := Val(s[1..]);
    assert Val(s) == 2 * (0x8000_0000 * v) + s[0];
  }

  lemma HalveExponent(v: nat, bit: int, w: nat)
    requires bit == v % 2
    ensures bit * w + (v / 2) * (2 * w) == v * w
    ensures bit * w >= 0
  {
    assert v == 2 * (v / 2) + bit;
    assert (2 * (v / 2) + bit) * w == (v / 2) * (2 * w) + bit * w;
  }

  lemma HalveRange(v: nat, w: nat, left: nat)
    requires v < Power(2, left + 1)
    ensures v / 2 < Power(2, left)
    ensures (2 * w) * Power(2, left) == w * Power(2, left + 1)
  {
    PowerStep(2, left);
    var q := Power(2, left);
    assert (2 * w) * q == w * (2 * q);
  }

  lemma WordCapacity()
    ensures Power(2, 32) == B && Power(2, 0) == 1
  {
    PowerIsPow(2, 32);
    PowerIsPow(2, 0);
    Pow2At32();
  }

  // Subtracting 2 from a low limb that is at least 2 needs no borrow.
  lemma ExponentLimbs(ms: seq<Word>, es: seq<Word>)
    requires |ms| == 8 && ms[0] >= 2 && es == [ms[0] - 2] + ms[1..]
    ensures Val(es) == Val(ms) - 2 && forall i {:trigger Val(es[..i])} :: 0 <= i <= 8 ==> 0 <= Val(es[..i])
  {
    ValCons(ms);
    ValCons(es);
    assert es[1..] == ms[1..];
    forall i {:trigger Val(es[..i])} | 0 <= i <= 8 ensures 0 <= Val(es[..i]) {
      ValBound(es[..i]);
    }
  }

  lemma LowLimb(s: seq<Word>)
    requires |s| > 0
    ensures Val(s) % B == s[0]
  {
    ValCons(s);
    DivModUnique(Val(s), B, Val(s[1..]), s[0]);
  }

  // Both accumulations together leave at most one carry bit.
  lemma RoundTotal(v: int, x: Word, w: int, u: Word, m: int, v1: int, c: int, v2: int, c': int)
    requires 0 <= v < w + m && 0 <= w < m < Power(B, 8)
    requires 0 <= c && 0 <= c' && 0 <= v2
    requires v1 + c * (B * Power(B, 8)) == v + x * w && v2 + c' * (B * Power(B, 8)) == v1 + u * m
    ensures v2 + (c + c') * (B * Power(B, 8)) == v + x * w + u * m
    ensures c + c' <= 1
  {
    var r := Power(B, 8);
    assert (c + c') * (B * Power(B, 8)) == c * (B * Power(B, 8)) + c' * (B * Power(B, 8));
    MulLe(x, B - 1, w);
    MulLe(u, B - 1, m);
    if c + c' >= 2 { MulLe(2, c + c', (B * Power(B, 8))); }
  }

  // The low word is zero, so shifting by one limb is exact.
  lemma TopIsZero(v: int, c: int, total: int, r: int)
    requires v + c * (B * r) == total && total % B == 0
    ensures v % B == 0
  {
    assert c * (B * r) == (c * r) * B;
    ModShift(total, v, c * r, B);
  }

  // The ninth limb of a number below 2m is a single bit.
  lemma TopBit(lo: int, top: Word, v: int, m: int, r: int)
    requires 0 <= lo < r && 0 < m < r && v == lo + top * r && v < 2 * m
    ensures top <= 1
    ensures top == 1 ==> v == lo + r && lo < m
    ensures top == 0 ==> v == lo
  {
    if top >= 2 { MulLe(2, top, r); }
  }
}
