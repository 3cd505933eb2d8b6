/** Fixed-width unsigned integers as little-endian arrays of 32-bit limbs:
    the `u256_*` and `u288_*` layer of the P-256 code. An array may be passed
    for several parameters at once wherever the original allows overlap. */
module Limbs {
  import opened Bits
  import opened Numbers
  import opened Radix

  const TWO64 := 0x1_0000_0000_0000_0000

  type Word = x: int | 0 <= x < 0x1_0000_0000

  // c * 2^(32 i)
  function Shift(c: int, i: nat): int {
    if i == 0 then c else B * Shift(c, i - 1)
  }

  lemma {:induction false} ShiftPow(c: int, i: nat)
    ensures Shift(c, i) == c * Power(B, i)
  {
    PowerStep(B, 0);
    if i != 0 {
      ShiftPow(c, i - 1);
      PowerStep(B, i - 1);
      var q := Power(B, i - 1);
      assert B * (c * q) == c * (B * q);
    }
  }

  lemma {:induction false} ShiftAdd(c: int, d: int, i: nat)
    ensures Shift(c + d, i) == Shift(c, i) + Shift(d, i)
  {
    if i != 0 { ShiftAdd(c, d, i - 1); }
  }

  lemma {:induction false} ShiftUp(c: int, i: nat)
    ensures Shift(B * c, i) == Shift(c, i + 1)
  {
    if i != 0 { ShiftUp(c, i - 1); }
  }

  lemma {:induction false} ShiftMul(x: int, c: int, i: nat)
    ensures Shift(x * c, i) == x * Shift(c, i)
  {
    if i != 0 {
      ShiftMul(x, c, i - 1);
      var t := Shift(c, i - 1);
      assert B * (x * t) == x * (B * t);
    }
  }

  // The number a sequence of limbs stands for, least significant limb first.
  function Val(s: seq<Word>): (v: int) {
    if s == [] then 0
    else Val(s[..|s| - 1]) + Shift(s[|s| - 1], |s| - 1)
  }

  lemma {:induction false} ValBound(s: seq<Word>)
    ensures 0 <= Val(s) < Power(B, |s|)
  {
    PowerStep(B, 0);
    if s != [] {
      var k := |s| - 1;
      ValBound(s[..k]);
      ShiftPow(s[k], k);
      PowerStep(B, k);
      MulLe(s[k], B - 1, Power(B, k));
      MulLe(0, s[k], Power(B, k));
    }
  }

  lemma ValSnoc(s: seq<Word>, i: nat)
    requires i < |s|
    ensures Val(s[..i + 1]) == Val(s[..i]) + Shift(s[i], i)
  {
    assert s[..i + 1][..i] == s[..i];
  }

  lemma {:induction false} ValCons(s: seq<Word>)
    requires |s| > 0
    ensures Val(s) == s[0] + B * Val(s[1..])
  {
    var k := |s| - 1;
    if k == 0 {
      assert Val(s[..0]) == 0 && Val(s[1..]) == 0;
    } else {
      ValCons(s[..k]);
      assert s[..k][1..] == s[1..][..k - 1];
    }
  }

  // Equal values of equal lengths come from equal limbs.
  lemma {:induction false} ValInjective(s: seq<Word>, t: seq<Word>)
    requires |s| == |t| && Val(s) == Val(t)
    ensures s == t
  {
    if s != [] {
      ValCons(s);
      ValCons(t);
      ValInjective(s[1..], t[1..]);
      assert s == [s[0]] + s[1..] && t == [t[0]] + t[1..];
    }
  }

  lemma {:induction false} ValZero(s: seq<Word>)
    ensures Val(s) == 0 <==> forall i :: 0 <= i < |s| ==> s[i] == 0
  {
    if s != [] {
      ValCons(s);
      ValBound(s[1..]);
      ValZero(s[1..]);
      assert forall i :: 0 < i < |s| ==> s[i] == s[1..][i - 1];
      assert forall i :: 0 <= i < |s[1..]| ==> s[i + 1] == s[1..][i];
    }
  }

  // One more column of z + carry * B^i = x + y (or of z = x - y, with a borrow).
  lemma SumColumn(z: seq<Word>, x: seq<Word>, y: seq<Word>, i: nat, c: int, c': int, sign: int)
    requires i < |x| && i < |y| && i < |z| && (sign == 1 || sign == -1)
    requires z[i] + B * c' == x[i] + sign * y[i] + c
    requires Val(z[..i]) + Shift(c, i) == Val(x[..i]) + sign * Val(y[..i])
    ensures Val(z[..i + 1]) + Shift(c', i + 1) == Val(x[..i + 1]) + sign * Val(y[..i + 1])
  {
    ValSnoc(z, i);
    ValSnoc(x, i);
    ValSnoc(y, i);
    ShiftUp(c', i);
    ShiftAdd(z[i], B * c', i);
    ShiftAdd(x[i] + sign * y[i], c, i);
    ShiftAdd(x[i], sign * y[i], i);
    ShiftMul(sign, y[i], i);
  }

  // The low eight limbs, which is all the 256-bit operations look at.
  function Low8(x: array<Word>): (s: seq<Word>)
    requires x.Length >= 8
    reads x
    ensures |s| == 8 && (x.Length == 8 ==> s == x[..])
  {
    x[..8]
  }

  // z := x, a 32-bit number
  method U256Set32(z: array<Word>, x: Word)
    requires z.Length == 8
    modifies z
    ensures z[0] == x && forall k :: 0 < k < 8 ==> z[k] == 0
    ensures Val(z[..]) == x
  {
    z[0] := x;
    for i := 1 to 8
      invariant z[0] == x && forall k :: 0 < k < i ==> z[k] == 0
    {
      z[i] := 0;
    }
    ValCons(z[..]);
    ValZero(z[..][1..]);
  }

  // z + carry * 2^256 = x + y
  method U256Add(z: array<Word>, x: array<Word>, y: array<Word>) returns (carry: Word)
    requires z.Length == 8 && x.Length == 8 && y.Length == 8
    modifies z
    ensures carry <= 1
    ensures Val(z[..]) + carry * Power(B, 8) == Val(old(x[..])) + Val(old(y[..]))
  {
    ghost var xs, ys := x[..], y[..];
    carry := 0;
    for i := 0 to 8
      invariant carry <= 1
      invariant forall k :: i <= k < 8 ==> x[k] == xs[k] && y[k] == ys[k]
      invariant Val(z[..][..i]) + Shift(carry, i) == Val(xs[..i]) + Val(ys[..i])
    {
      ghost var zs, c := z[..], carry;
      var sum := carry + x[i] + y[i];
      z[i] := sum % B;
      carry := sum / B;
      assert z[..][..i] == zs[..i];
      SumColumn(z[..], xs, ys, i, c, carry, 1);
    }
    ShiftPow(carry, 8);
    assert z[..][..8] == z[..] && xs[..8] == xs && ys[..8] == ys;
  }

  // A 64-bit difference of words: the low word and the negated high word.
  lemma BorrowStep(d: int, diff: int)
    requires -B <= d < B && diff == d % TWO64
    ensures (0 - diff / B) % B == (if d < 0 then 1 else 0)
    ensures diff % B - B * ((0 - diff / B) % B) == d
  {
    if d < 0 {
      DivModUnique(d, TWO64, -1, d + TWO64);
      DivModUnique(diff, B, B - 1, d + B);
    } else {
      ModSmall(d, TWO64);
      DivModUnique(diff, B, 0, d);
    }
  }

  // z = carry * 2^256 + x - y, where carry is 1 exactly when x < y
  method U256Sub(z: array<Word>, x: array<Word>, y: array<Word>) returns (carry: Word)
    requires z.Length == 8 && x.Length >= 8 && y.Length == 8
    modifies z
    ensures carry == if Val(old(Low8(x))) < Val(old(y[..])) then 1 else 0
    ensures Val(z[..]) == carry * Power(B, 8) + Val(old(Low8(x))) - Val(old(y[..]))
  {
    ghost var xs, ys := Low8(x), y[..];
    carry := 0;
    for i := 0 to 8
      invariant carry <= 1
      invariant forall k :: i <= k < 8 ==> x[k] == xs[k] && y[k] == ys[k]
      invariant Val(z[..][..i]) + Shift(0 - carry, i) == Val(xs[..i]) - Val(ys[..i])
    {
      ghost var zs, c: int := z[..], carry;
      var diff := (x[i] - y[i] - carry) % TWO64;
      z[i] := diff % B;
      carry := (0 - diff / B) % B;
      BorrowStep(xs[i] - ys[i] - c, diff);
      assert z[..][..i] == zs[..i];
      SumColumn(z[..], xs, ys, i, 0 - c, 0 - carry, -1);
    }
    ShiftPow(0 - carry, 8);
    assert z[..][..8] == z[..] && xs[..8] == xs && ys[..8] == ys;
    ValBound(z[..]);
    ValBound(xs);
    ValBound(ys);
  }

  // The constant-time choice between two words: mask is 0 or all ones.
  function Choose(z: Word, x: Word, mask: Word): (r: Word)
    requires mask == 0 || mask == B - 1
    ensures r == if mask == 0 then z else x
  {
    Pow2At32();
    AndOnes(z, 32);
    AndOnes(x, 32);
    BitOr(BitAnd(z, B - 1 - mask), BitAnd(x, mask))
  }

  // z := x when c is 1, unchanged when c is 0
  method U256CMov(z: array<Word>, x: array<Word>, c: Word)
    requires z.Length == 8 && x.Length >= 8 && c <= 1
    modifies z
    ensures z[..] == if c == 1 then old(Low8(x)) else old(z[..])
  {
    var xMask := (0 - c) % B;
    for i := 0 to 8
      invariant forall k :: 0 <= k < i ==> z[k] == if c == 1 then old(x[k]) else old(z[k])
      invariant forall k :: i <= k < 8 ==> z[k] == old(z[k]) && x[k] == old(x[k])
    {
      z[i] := Choose(z[i], x[i], xMask);
    }
  }

  // zero exactly when x and y hold the same number
  method U256Diff(x: array<Word>, y: array<Word>) returns (diff: nat)
    requires x.Length == 8 && y.Length == 8
    ensures diff == 0 <==> Val(x[..]) == Val(y[..])
    ensures diff == 0 <==> x[..] == y[..]
  {
    diff := 0;
    for i := 0 to 8
      invariant diff == 0 <==> x[..i] == y[..i]
    {
      XorZero(x[i], y[i]);
      OrZero(diff, BitXor(x[i], y[i]));
      diff := BitOr(diff, BitXor(x[i], y[i]));
      assert x[..i + 1] == x[..i] + [x[i]] && y[..i + 1] == y[..i] + [y[i]];
    }
    assert x[..8] == x[..] && y[..8] == y[..];
    if Val(x[..]) == Val(y[..]) { ValInjective(x[..], y[..]); }
  }

  // zero exactly when x is zero
  method U256Diff0(x: array<Word>) returns (diff: nat)
    requires x.Length == 8
    ensures diff == 0 <==> Val(x[..]) == 0
  {
    diff := 0;
    for i := 0 to 8
      invariant diff == 0 <==> forall k :: 0 <= k < i ==> x[..][k] == 0
    {
      OrZero(diff, x[i]);
      diff := BitOr(diff, x[i]);
      assert x[..][i] == x[i];
    }
    ValZero(x[..]);
  }

  // x * y + z + t from four 16 x 16 bit products; nothing overflows
  method U32MulAdd64(x: Word, y: Word, z: Word, t: Word) returns (acc: int)
    ensures acc == x * y + z + t && 0 <= acc < TWO64
  {
    var xl, yl, xh, yh := x % 0x1_0000, y % 0x1_0000, x / 0x1_0000, y / 0x1_0000;
    ProductBound(xl, yl);
    ProductBound(xh, yl);
    ProductBound(xl, yh);
    ProductBound(xh, yh);
    SplitProduct(x, y);
    var lo, m1, m2, hi := xl * yl, xh * yl, xl * yh, xh * yh;
    acc := Combine(lo, m1, m2, hi, z, t);
  }

  // Truncation to 64 bits.
  function Wrap64(a: nat): (r: nat)
    ensures a < TWO64 ==> r == a
    ensures r < TWO64
  {
    a % TWO64
  }

  // A 32-bit left shift by 16 loses the high half.
  lemma HalfShift(m: Word)
    ensures (m * 0x1_0000) % B + B * (m / 0x1_0000) == m * 0x1_0000
  {
    var h, l := m / 0x1_0000, m % 0x1_0000;
    DivModUnique(m * 0x1_0000, B, h, l * 0x1_0000);
  }

  // The sum of the four partial products, all in wrapping unsigned arithmetic.
  method Combine(lo: Word, m1: Word, m2: Word, hi: Word, z: Word, t: Word) returns (acc: int)
    requires lo <= 0xFFFE_0001 && m1 <= 0xFFFE_0001 && m2 <= 0xFFFE_0001 && hi <= 0xFFFE_0001
    requires lo + 0x1_0000 * (m1 + m2) + B * hi <= 0xFFFF_FFFE_0000_0001
    ensures acc == lo + 0x1_0000 * (m1 + m2) + B * hi + z + t && 0 <= acc < TWO64
  {
    HalfShift(m1);
    HalfShift(m2);
    ModSmall(hi + m1 / 0x1_0000 + m2 / 0x1_0000, B);
    acc := Wrap64(lo + B * ((hi + m1 / 0x1_0000 + m2 / 0x1_0000) % B));
    acc := Wrap64(acc + (m1 * 0x1_0000) % B);
    acc := Wrap64(acc + (m2 * 0x1_0000) % B);
    acc := Wrap64(acc + z);
    acc := Wrap64(acc + t);
  }

  lemma ProductBound(a: int, b: int)
    requires 0 <= a < 0x1_0000 && 0 <= b < 0x1_0000
    ensures 0 <= a * b <= 0xFFFE_0001
  {
    MulLe(0, a, b);
    MulLe(a, 0xFFFF, b);
  }

  lemma SplitProduct(x: Word, y: Word)
    ensures x * y == (x % 0x1_0000) * (y % 0x1_0000)
                     + 0x1_0000 * ((x / 0x1_0000) * (y % 0x1_0000) + (x % 0x1_0000) * (y / 0x1_0000))
                     + B * ((x / 0x1_0000) * (y / 0x1_0000))
    ensures 0 <= x * y <= 0xFFFF_FFFE_0000_0001
  {
    var xl, yl, xh, yh := x % 0x1_0000, y % 0x1_0000, x / 0x1_0000, y / 0x1_0000;
    assert x == xl + 0x1_0000 * xh && y == yl + 0x1_0000 * yh;
    assert x * y == (xl + 0x1_0000 * xh) * (yl + 0x1_0000 * yh);
    assert (xl + 0x1_0000 * xh) * (yl + 0x1_0000 * yh)
        == xl * yl + 0x1_0000 * (xh * yl + xl * yh) + B * (xh * yh);
    MulLe(0, x, y);
    MulLe(x, B - 1, y);
  }

  lemma MulAddColumn(z: seq<Word>, zs: seq<Word>, ys: seq<Word>, x: Word, i: nat, c: int, c': int)
    requires i < |z| && i < |zs| && i < |ys|
    requires z[i] + B * c' == x * ys[i] + zs[i] + c
    requires Val(z[..i]) + Shift(c, i) == Val(zs[..i]) + x * Val(ys[..i])
    ensures Val(z[..i + 1]) + Shift(c', i + 1) == Val(zs[..i + 1]) + x * Val(ys[..i + 1])
  {
    ValSnoc(z, i);
    ValSnoc(zs, i);
    ValSnoc(ys, i);
    ShiftUp(c', i);
    ShiftAdd(z[i], B * c', i);
    ShiftAdd(x * ys[i] + zs[i], c, i);
    ShiftAdd(x * ys[i], zs[i], i);
    ShiftMul(x, ys[i], i);
    var v, w := Val(ys[..i]), Shift(ys[i], i);
    assert x * (v + w) == x * v + x * w;
  }

  // z + carry * 2^288 = z_in + x * y
  method U288MulAdd(z: array<Word>, x: Word, y: array<Word>) returns (carry: Word)
    requires z.Length == 9 && y.Length == 8
    modifies z
    ensures carry <= 1
    ensures Val(z[..]) + carry * (B * Power(B, 8)) == Val(old(z[..])) + x * Val(y[..])
  {
    hide Val, Shift;
    ghost var zs, ys := z[..], y[..];
    carry := 0;
    NoColumns(zs, ys, x);
    for i := 0 to 8
      invariant y[..] == ys
      invariant forall k :: i <= k < 9 ==> z[k] == zs[k]
      invariant Val(z[..][..i]) + Shift(carry, i) == Val(zs[..i]) + x * Val(ys[..i])
    {
      ghost var z0, c := z[..], carry;
      var prod := U32MulAdd64(x, y[i], z[i], carry);
      z[i] := prod % B;
      carry := prod / B;
      assert z[..][..i] == z0[..i];
      MulAddColumn(z[..], zs, ys, x, i, c, carry);
    }
    ghost var z0, c := z[..], carry;
    var sum := z[8] + carry;
    z[8] := sum % B;
    carry := sum / B;
    assert z[..][..8] == z0[..8] && ys[..8] == ys;
    LastColumn(z[..], zs, x * Val(ys), c, carry);
  }

  lemma NoColumns(zs: seq<Word>, ys: seq<Word>, x: Word)
    ensures Val(zs[..0]) + Shift(0, 0) == Val(zs[..0]) + x * Val(ys[..0])
  {
  }

  lemma LastColumn(z: seq<Word>, zs: seq<Word>, t: int, c: Word, carry: Word)
    requires |z| == |zs| == 9 && z[8] + B * carry == zs[8] + c
    requires Val(z[..8]) + Shift(c, 8) == Val(zs[..8]) + t
    ensures Val(z) + carry * (B * Power(B, 8)) == Val(zs) + t
  {
    hide Val, Shift;
    assert z[..9] == z && zs[..9] == zs;
    ValSnoc(z, 8);
    ValSnoc(zs, 8);
    ShiftPow(z[8], 8);
    ShiftPow(zs[8], 8);
    ShiftPow(c, 8);
    ColumnSum(Val(z[..8]), Val(zs[..8]), t, z[8], zs[8], c, carry, Power(B, 8));
  }

  lemma ColumnSum(a: int, b: int, t: int, x: int, y: int, c: int, carry: int, w: int)
    requires x + B * carry == y + c && a + c * w == b + t
    ensures a + x * w + carry * (B * w) == b + y * w + t
  {
    assert (x + B * carry) * w == x * w + carry * (B * w);
    assert (y + c) * w == y * w + c * w;
  }

  // z := (z + c * 2^288) / 2^32
  method U288RShift32(z: array<Word>, c: Word)
    requires z.Length == 9
    modifies z
    ensures B * Val(z[..]) + old(z[0]) == Val(old(z[..])) + c * (B * Power(B, 8))
  {
    ghost var zs := z[..];
    for i := 0 to 8
      invariant forall k :: 0 <= k < i ==> z[k] == zs[k + 1]
      invariant forall k :: i <= k < 9 ==> z[k] == zs[k]
    {
      z[i] := z[i + 1];
    }
    z[8] := c;
    assert z[..] == zs[1..] + [c];
    ValShiftDown(zs, c);
  }

  lemma ValShiftDown(s: seq<Word>, c: Word)
    requires |s| == 9
    ensures B * Val(s[1..] + [c]) + s[0] == Val(s) + c * (B * Power(B, 8))
  {
    ValCons(s);
    assert (s[1..] + [c])[..8] == s[1..];
    ShiftPow(c, 8);
    var w := Power(B, 8);
    assert c * (B * w) == B * (c * w);
  }

  // ------------------------------------------------------- right shift

  // Dropping k limbs divides by 2^(32 k).
  lemma {:induction false} ValDrop(s: seq<Word>, k: nat)
    requires k <= |s|
    ensures Power(B, k) > 0
    ensures Val(s[k..]) == Val(s) / Power(B, k)
  {
    PowerPositive(B, k);
    PowerStep(B, 0);
    if k != 0 {
      ValDrop(s[1..], k - 1);
      ValCons(s);
      assert s[1..][k - 1..] == s[k..];
      PowerStep(B, k - 1);
      PowerPositive(B, k - 1);
      var v, q := Val(s[1..]), Power(B, k - 1);
      DivMod(v, q);
      var t, r := v / q, v % q;
      assert B * (q * t + r) == (B * q) * t + B * r;
      DivModUnique(Val(s), B * q, t, B * r + s[0]);
    } else {
      assert s[0..] == s;
    }
  }

  lemma {:induction false} ValPad(s: seq<Word>, t: seq<Word>)
    requires forall i :: 0 <= i < |t| ==> t[i] == 0
    ensures Val(s + t) == Val(s)
  {
    if t == [] {
      assert s + t == s;
    } else {
      var k := |t| - 1;
      assert (s + t)[..|s| + k] == s + t[..k];
      ValPad(s, t[..k]);
      ShiftPow(0, |s| + k);
    }
  }

  // One limb of a right shift by less than 32 bits, q = 2^shift, q * c = 2^32.
  lemma ShiftColumn(w: Word, v: int, n: int, r: int, q: int, c: int)
    requires q > 0 && c > 0 && q * c == B && v == q * n + r && 0 <= r < q
    ensures w + B * v == q * (w / q + r * c + B * n) + w % q
    ensures 0 <= w / q < c
    ensures (w * c) % B == (w % q) * c
    ensures 0 <= r * c <= B - c
  {
    DivMod(w, q);
    assert B * v == (q * c) * (q * n + r);
    assert q * (w / q + r * c + B * n) == q * (w / q) + (q * c) * r + B * (q * n);
    if w / q >= c { MulLe(c, w / q, q); }
    var t := w / q;
    assert w * c == (q * t + w % q) * c;
    assert (q * t) * c == (q * c) * t;
    MulLe(w % q, q - 1, c);
    MulLe(0, w % q, c);
    assert (q - 1) * c == B - c;
    DivModUnique(w * c, B, t, (w % q) * c);
    MulLe(r, q - 1, c);
    MulLe(0, r, c);
  }

  // The same limb inside the arrays: suffix i from suffix i + 1.
  lemma ShiftSuffix(ys: seq<Word>, xs: seq<Word>, i: nat, r: int, q: int, c: int)
    requires i < |xs| == |ys| && q > 0 && c > 0 && q * c == B && 0 <= r < q
    requires Val(ys[i + 1..]) == q * Val(xs[i + 1..]) + r
    requires xs[i] == ys[i] / q + r * c
    ensures Val(ys[i..]) == q * Val(xs[i..]) + ys[i] % q
  {
    ShiftColumn(ys[i], Val(ys[i + 1..]), Val(xs[i + 1..]), r, q, c);
    ValCons(ys[i..]);
    ValCons(xs[i..]);
    assert ys[i..][1..] == ys[i + 1..] && xs[i..][1..] == xs[i + 1..];
  }

  // The limb itself: the shifted word and the carried bits do not overlap.
  lemma ShiftWord(w: Word, carry: Word, r: nat, q: int, c: int, k: nat)
    requires q > 0 && c == Pow(2, k) && c > 0 && q * c == B && r < q && carry == r * c
    ensures 0 <= w / q < B && BitOr(w / q, carry) == w / q + r * c < B
    ensures (w * c) % B == (w % q) * c
  {
    ShiftColumn(w, q * 0 + r, 0, r, q, c);
    OrDisjoint(r, w / q, k);
    OrBothWays(w / q, carry);
  }

  // x := x / 2^shift by 0 < shift < 32 bits, from the top limb down
  method ShiftBits(x: array<Word>, bitShift: nat)
    requires x.Length == 8 && 0 < bitShift < 32
    modifies x
    ensures Pow(2, bitShift) > 0
    ensures Val(x[..]) == Val(old(x[..])) / Pow(2, bitShift)
  {
    var q, c := Pow(2, bitShift), Pow(2, 32 - bitShift);
    PowPositive(2, bitShift);
    PowPositive(2, 32 - bitShift);
    PowAdd(2, bitShift, 32 - bitShift);
    Pow2At32();
    ghost var ys := x[..];
    ghost var r := 0;
    var carry: Word := 0;
    var i := 8;
    while i > 0
      invariant 0 <= i <= 8
      invariant forall k :: 0 <= k < i ==> x[k] == ys[k]
      invariant 0 <= r < q && carry == r * c
      invariant Val(ys[i..]) == q * Val(x[..][i..]) + r
    {
      i := i - 1;
      ghost var before := x[..];
      ShiftWord(x[i], carry, r, q, c, 32 - bitShift);
      var newCarry := (x[i] * c) % B;
      x[i] := BitOr(x[i] / q, carry);
      assert x[..][i + 1..] == before[i + 1..];
      ShiftSuffix(ys, x[..], i, r, q, c);
      r := ys[i] % q;
      carry := newCarry;
    }
    assert ys[0..] == ys && x[..][0..] == x[..];
    DivModUnique(Val(ys), q, Val(x[..]), r);
  }

  // x := x / 2^shift, for any shift
  method U256RShift(x: array<Word>, shift: nat)
    requires x.Length == 8
    modifies x
    ensures Pow(2, shift) > 0
    ensures Val(x[..]) == Val(old(x[..])) / Pow(2, shift)
  {
    ghost var xs := x[..];
    ValBound(xs);
    PowPositive(2, shift);
    if shift >= 256 {
      for i := 0 to 8
        invariant forall k :: 0 <= k < i ==> x[..][k] == 0
      {
        x[i] := 0;
      }
      ValZero(x[..]);
      PowerOfWords(8);
      PowMonotone(2, 256, shift);
      DivModUnique(Val(xs), Pow(2, shift), 0, Val(xs));
      return;
    }
    var wordShift := shift / 32;
    if wordShift > 0 {
      for i := 0 to 8 - wordShift
        invariant forall k :: 0 <= k < i ==> x[k] == xs[k + wordShift]
        invariant forall k :: i <= k < 8 ==> x[k] == xs[k]
      {
        x[i] := x[i + wordShift];
      }
      for i := 8 - wordShift to 8
        invariant forall k :: 0 <= k < 8 - wordShift ==> x[k] == xs[k + wordShift]
        invariant forall k :: 8 - wordShift <= k < i ==> x[k] == 0
      {
        x[i] := 0;
      }
      assert x[..] == xs[wordShift..] + x[..][8 - wordShift..];
      ValPad(xs[wordShift..], x[..][8 - wordShift..]);
    } else {
      assert xs[0..] == xs;
    }
    ValDrop(xs, wordShift);
    PowerOfWords(wordShift);
    var bitShift := shift % 32;
    if bitShift > 0 {
      ShiftBits(x, bitShift);
      PowAdd(2, 32 * wordShift, bitShift);
      PowPositive(2, bitShift);
      DivDiv(Val(xs), Power(B, wordShift), Pow(2, bitShift));
    }
  }

  lemma {:induction false} PowerOfWords(k: nat)
    ensures Power(B, k) == Pow(2, 32 * k)
  {
    Pow2At32();
    PowMul(2, 32, k);
    PowerIsPow(B, k);
  }

  // ------------------------------------------------- big-endian byte strings

  // The number a byte string stands for, most significant byte first.
  function BigEndian(s: seq<Byte>): nat {
    Value(s, 256)
  }

  function WordFromBytes(a: Byte, b: Byte, c: Byte, d: Byte): Word {
    a * 0x100_0000 + b * 0x1_0000 + c * 0x100 + d
  }

  // Limb i of the 4n-byte big-endian string p.
  function LimbOf(p: seq<Byte>, n: nat, i: nat): Word
    requires i < n && |p| == 4 * n
  {
    var j := 4 * (n - 1 - i);
    WordFromBytes(p[j], p[j + 1], p[j + 2], p[j + 3])
  }

  lemma BigEndianSnoc(p: seq<Byte>, k: nat)
    requires k < |p|
    ensures BigEndian(p[..k + 1]) == 256 * BigEndian(p[..k]) + p[k]
  {
    assert p[..k + 1][..k] == p[..k];
  }

  // Limbs read from big-endian bytes carry the same number.
  lemma {:induction false} LimbsOfBytes(z: seq<Word>, p: seq<Byte>)
    requires |p| == 4 * |z|
    requires forall i :: 0 <= i < |z| ==> z[i] == LimbOf(p, |z|, i)
    ensures Val(z) == BigEndian(p)
  {
    if z != [] {
      var n := |z| - 1;
      var q := p[..4 * n];
      forall i | 0 <= i < n ensures z[1..][i] == LimbOf(q, n, i) {
        assert z[1..][i] == z[i + 1];
      }
      LimbsOfBytes(z[1..], q);
      ValCons(z);
      BigEndianSnoc(p, 4 * n);
      BigEndianSnoc(p, 4 * n + 1);
      BigEndianSnoc(p, 4 * n + 2);
      BigEndianSnoc(p, 4 * n + 3);
      assert p[..4 * n + 4] == p;
      assert z[0] == LimbOf(p, n + 1, 0);
    }
  }

  // z := the 32 big-endian bytes of p starting at off
  method U256FromBytes(z: array<Word>, p: array<Byte>, off: nat)
    requires z.Length == 8 && off + 32 <= p.Length
    modifies z
    ensures Val(z[..]) == BigEndian(p[off..off + 32])
  {
    ghost var ps := p[off..off + 32];
    for i := 0 to 8
      invariant p[off..off + 32] == ps
      invariant forall k :: 0 <= k < i ==> z[k] == LimbOf(ps, 8, k)
    {
      var j := 4 * (7 - i);
      assert forall k :: 0 <= k < 32 ==> ps[k] == p[off + k];
      z[i] := WordFromBytes(p[off + j], p[off + j + 1], p[off + j + 2], p[off + j + 3]);
    }
    LimbsOfBytes(z[..], ps);
  }

  lemma WordToBytes(w: Word)
    ensures WordFromBytes(w / 0x100_0000, w / 0x1_0000 % 256, w / 0x100 % 256, w % 256) == w
  {
    var g, h := w / 0x100, w / 0x1_0000;
    DivModUnique(w, 0x1_0000, g / 256, g % 256 * 256 + w % 256);
    DivModUnique(w, 0x100_0000, h / 256, h % 256 * 0x1_0000 + w % 0x1_0000);
  }

  // 32 big-endian bytes of p starting at off := z; the rest of p is untouched
  method U256ToBytes(p: array<Byte>, off: nat, z: array<Word>)
    requires z.Length == 8 && off + 32 <= p.Length
    modifies p
    ensures BigEndian(p[off..off + 32]) == Val(z[..])
    ensures forall k :: 0 <= k < off || off + 32 <= k < p.Length ==> p[k] == old(p[k])
  {
    ghost var zs := z[..];
    for i := 0 to 8
      invariant z[..] == zs
      invariant forall k :: 0 <= k < off || off + 32 <= k < p.Length ==> p[k] == old(p[k])
      invariant forall k :: 0 <= k < i ==> zs[k] == LimbOf(p[off..off + 32], 8, k)
    {
      var j := off + 4 * (7 - i);
      ghost var before := p[off..off + 32];
      p[j] := z[i] / 0x100_0000;
      p[j + 1] := z[i] / 0x1_0000 % 256;
      p[j + 2] := z[i] / 0x100 % 256;
      p[j + 3] := z[i] % 256;
      WordToBytes(zs[i]);
      ghost var after := p[off..off + 32];
      assert forall k :: 0 <= k < 32 && !(j <= off + k < j + 4) ==> after[k] == before[k];
      assert forall k :: 0 <= k < i ==> LimbOf(after, 8, k) == LimbOf(before, 8, k);
    }
    LimbsOfBytes(zs, p[off..off + 32]);
  }
}
