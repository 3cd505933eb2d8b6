/** Multi-byte shifts and rotations of an octet string in place, after
    zen_octet.c and zen_fuzzer.c. */
module Octets {
  import opened Bits
  import opened Numbers
  import opened Radix

  // ------------------------------------------------- the bits of a byte string

  ghost function BitsOf(s: seq<Byte>): (b: seq<nat>)
    ensures |b| == 8 * |s|
  {
    Fixed(Value(s, 256), 2, 8 * |s|)
  }

  lemma BytesArePowers(n: nat)
    ensures Pow(256, n) == Two(8 * n)
  {
    Pow2At8();
    PowMul(2, 8, n);
  }

  lemma BitsValue(s: seq<Byte>)
    ensures Digits(BitsOf(s), 2) && Value(BitsOf(s), 2) == Value(s, 256) < Two(8 * |s|)
  {
    hide Value, Pow, Fixed;
    ValueBound(s, 256);
    BytesArePowers(|s|);
    FixedValue(Value(s, 256), 2, 8 * |s|);
    FixedDigits(Value(s, 256), 2, 8 * |s|);
  }

  lemma BitsAre(s: seq<Byte>, b: seq<nat>)
    requires Digits(b, 2) && |b| == 8 * |s| && Value(b, 2) == Value(s, 256)
    ensures BitsOf(s) == b
  {
    hide Value, Fixed, BitsOf;
    BitsValue(s);
    ValueInjective(b, BitsOf(s), 2);
  }

  lemma BitsInjective(s: seq<Byte>, t: seq<Byte>)
    requires |s| == |t| && BitsOf(s) == BitsOf(t)
    ensures s == t
  {
    hide Value, BitsOf;
    BitsValue(s);
    BitsValue(t);
    ValueInjective(s, t, 256);
  }

  lemma BitsConcat(s: seq<Byte>, t: seq<Byte>)
    ensures BitsOf(s + t) == BitsOf(s) + BitsOf(t)
  {
    hide Value, Pow, BitsOf;
    BitsValue(s);
    BitsValue(t);
    ValueConcat(s, t, 256);
    BytesArePowers(|t|);
    ValueConcat(BitsOf(s), BitsOf(t), 2);
    BitsAre(s + t, BitsOf(s) + BitsOf(t));
  }

  function Nulls(n: nat): (s: seq<nat>)
    ensures |s| == n && AllZero(s) && Digits(s, 2)
  {
    seq(n, _ => 0)
  }

  lemma NullBytes(n: nat, s: seq<Byte>)
    requires |s| == n && AllZero(s)
    ensures BitsOf(s) == Nulls(8 * n)
  {
    hide Value, BitsOf;
    ValueZero(s, 256);
    ValueZero(Nulls(8 * n), 2);
    BitsAre(s, Nulls(8 * n));
  }

  // ----------------------------------------------------------- bit strings

  function ShiftLeft(b: seq<nat>, n: nat): seq<nat>
    requires n <= |b|
  {
    b[n..] + Nulls(n)
  }

  function ShiftRight(b: seq<nat>, n: nat): seq<nat>
    requires n <= |b|
  {
    Nulls(n) + b[..|b| - n]
  }

  function RotateLeft(b: seq<nat>, n: nat): seq<nat>
    requires |b| > 0
  {
    var k := n % |b|;
    b[k..] + b[..k]
  }

  function RotateRight(b: seq<nat>, n: nat): seq<nat>
    requires |b| > 0
  {
    var k := |b| - n % |b|;
    b[k..] + b[..k]
  }

  // Amounts of rotation add.
  lemma RotationsAdd(b: seq<nat>, m: nat, n: nat)
    requires |b| > 0
    ensures RotateLeft(RotateLeft(b, m), n) == RotateLeft(b, m + n)
  {
    var l := |b|;
    var k, j := m % l, n % l;
    SumMod(m, n, l);
    var r := RotateLeft(b, m);
    assert r == b[k..] + b[..k];
    if k + j < l {
      assert r[j..] + r[..j] == b[k + j..] + b[..k + j];
    } else {
      assert r[j..] + r[..j] == b[k + j - l..] + b[..k + j - l];
    }
  }

  lemma SumMod(m: nat, n: nat, l: nat)
    requires l > 0
    ensures (m + n) % l == if m % l + n % l < l then m % l + n % l else m % l + n % l - l
  {
    DivMod(m, l);
    DivMod(n, l);
    var q := m / l + n / l;
    assert l * (m / l) + l * (n / l) == l * q;
    if m % l + n % l < l {
      DivModUnique(m + n, l, q, m % l + n % l);
    } else {
      assert l * (q + 1) == l * q + l;
      DivModUnique(m + n, l, q + 1, m % l + n % l - l);
    }
  }

  // Rotating right undoes rotating left, and the other way round.
  lemma RotationsUndo(b: seq<nat>, n: nat)
    requires |b| > 0
    ensures RotateRight(RotateLeft(b, n), n) == b && RotateLeft(RotateRight(b, n), n) == b
  {
    var k := n % |b|;
    var r := b[k..] + b[..k];
    assert r[|b| - k..] + r[..|b| - k] == b;
    var s := b[|b| - k..] + b[..|b| - k];
    assert s[k..] + s[..k] == b;
  }

  // ------------------------------------------------------------ single bytes

  // (current << b) | carry in an unsigned char, and the carry that leaves.
  function LeftByte(current: nat, carry: nat, b: nat): nat {
    BitOr(current * Two(b), carry) % 256
  }

  function LeftCarry(current: nat, b: nat): nat
    requires b <= 8
  {
    BitAnd(current / Two(8 - b), Two(b) - 1)
  }

  lemma LeftStep(current: Byte, carry: nat, b: nat)
    requires 0 < b < 8 && carry < Two(b)
    ensures LeftCarry(current, b) < Two(b) && LeftByte(current, carry, b) < 256
    ensures 256 * LeftCarry(current, b) + LeftByte(current, carry, b) == Two(b) * current + carry
  {
    hide Pow, BitAnd, BitOr, Two;
    var p, w := Two(b), Two(8 - b);
    ByteSplit(b);
    OrSum(current, carry, b);
    LeftArith(current, carry, p, w);
    OnesMod(current / w, b);
  }

  // The two halves of a byte.
  lemma ByteSplit(b: nat)
    requires 0 < b < 8
    ensures Two(b) * Two(8 - b) == 256
  {
    Pow2At8();
    PowAdd(2, b, 8 - b);
  }

  lemma OrSum(hi: nat, lo: nat, b: nat)
    requires lo < Two(b)
    ensures 0 <= hi * Two(b) && BitOr(hi * Two(b), lo) == hi * Two(b) + lo
  {
    OrDisjoint(hi, lo, b);
  }

  lemma OnesMod(x: nat, b: nat)
    ensures BitAnd(x, Two(b) - 1) == x % Two(b)
  {
    AndOnes(x, b);
  }

  lemma LeftArith(current: nat, carry: nat, p: nat, w: nat)
    requires p > 0 && w > 0 && p * w == 256 && current < 256 && carry < p
    ensures 0 <= current / w < p && (current / w) % p == current / w
    ensures 0 <= current * p + carry
    ensures 256 * (current / w) + (current * p + carry) % 256 == p * current + carry
  {
    DivMod(current, w);
    var q, r := current / w, current % w;
    if q >= p { MulLe(p, q, w); }
    ModSmall(q, p);
    assert current * p == (w * q + r) * p == (p * w) * q + r * p;
    MulLe(r + 1, w, p);
    assert (r + 1) * p == r * p + p;
    MulLe(0, r, p);
    DivModUnique(current * p + carry, 256, q, r * p + carry);
  }

  // (current >> b) | carry, where carry holds the r bits that come in from the
  // left.
  function RightByte(current: nat, carry: nat, b: nat): nat {
    BitOr(current / Two(b), carry) % 256
  }

  function RightCarry(current: nat, b: nat): nat
    requires b <= 8
  {
    (BitAnd(current, Two(b) - 1) * Two(8 - b)) % 256
  }

  lemma RightStep(current: Byte, r: nat, b: nat)
    requires 0 < b < 8 && r < Two(b)
    ensures 0 <= r * Two(8 - b) && 0 <= current % Two(b) < Two(b)
    ensures RightByte(current, r * Two(8 - b), b) < 256
    ensures RightCarry(current, b) == (current % Two(b)) * Two(8 - b) < 256
    ensures 256 * r + current == Two(b) * RightByte(current, r * Two(8 - b), b) + current % Two(b)
  {
    hide Pow, BitAnd, BitOr, Two;
    var p, w := Two(b), Two(8 - b);
    ByteSplit(b);
    RightArith(current, r, p, w);
    OrSum(r, current / p, 8 - b);
    OrBothWays(current / p, r * w);
    OnesMod(current, b);
  }

  lemma RightArith(current: nat, r: nat, p: nat, w: nat)
    requires p > 0 && w > 0 && p * w == 256 && current < 256 && r < p
    ensures 0 <= current / p < w && 0 <= current % p < p
    ensures 0 <= r * w && r * w + current / p < 256
    ensures 0 <= (current % p) * w < 256
    ensures 256 * r + current == p * (r * w + current / p) + current % p
  {
    DivMod(current, p);
    var q, s := current / p, current % p;
    QuotientBelow(current, p, w);
    ProductBelow(r, p, w);
    ProductBelow(s, p, w);
    RightSum(current, r, p, w, q, s);
  }

  lemma QuotientBelow(current: nat, p: nat, w: nat)
    requires p > 0 && w > 0 && current < p * w
    ensures 0 <= current / p < w
  {
    DivMod(current, p);
    if current / p >= w { MulLe(w, current / p, p); }
  }

  lemma ProductBelow(r: nat, p: nat, w: nat)
    requires r < p
    ensures 0 <= r * w <= p * w - w
  {
    MulLe(0, r, w);
    MulLe(r + 1, p, w);
    assert (r + 1) * w == r * w + w;
  }

  lemma RightSum(current: nat, r: nat, p: nat, w: nat, q: nat, s: nat)
    requires p * w == 256 && current == p * q + s
    ensures 256 * r + current == p * (r * w + q) + s
  {
    assert p * (r * w + q) == (p * w) * r + p * q;
  }

  // --------------------------------------------- what the byte loops compute

  // Every byte times 2^b with the carries handed on: a shift of the bits.
  lemma LeftBits(y: seq<Byte>, z: seq<Byte>, b: nat, carry: nat)
    requires |z| == |y| > 0 && b < 8 && Value(z, 256) + carry * Pow(256, |y|) == Two(b) * Value(y, 256)
    ensures BitsOf(z) == ShiftLeft(BitsOf(y), b)
    ensures carry == Value(BitsOf(y)[..b], 2)
  {
    hide Value, Pow, BitsOf, Two;
    var l := BitsOf(y)[b..];
    LeftParts(y, z, b, carry);
    BitsValue(y);
    ShiftedValue(l, b);
    BitsAre(z, l + Nulls(b));
  }

  lemma LeftParts(y: seq<Byte>, z: seq<Byte>, b: nat, carry: nat)
    requires |z| == |y| > 0 && b < 8 && Value(z, 256) + carry * Pow(256, |y|) == Two(b) * Value(y, 256)
    ensures Digits(BitsOf(y), 2)
    ensures Value(z, 256) == Value(BitsOf(y)[b..], 2) * Two(b) && carry == Value(BitsOf(y)[..b], 2)
  {
    hide Value, Pow, BitsOf, Two;
    BitsValue(y);
    BitsValue(z);
    BytesArePowers(|y|);
    SplitBits(BitsOf(y), b);
    var h, l := BitsOf(y)[..b], BitsOf(y)[b..];
    TwoAdd(|l|, b);
    DivideOut(Value(z, 256), carry, Two(8 * |y|), Value(h, 2), Value(l, 2), Two(b), Two(|l|));
  }

  // The first b bits, and the others below them.
  lemma SplitBits(s: seq<nat>, b: nat)
    requires Digits(s, 2) && b <= |s|
    ensures Value(s, 2) == Value(s[..b], 2) * Two(|s| - b) + Value(s[b..], 2)
    ensures Value(s[b..], 2) < Two(|s| - b)
  {
    hide Value, Pow, Two;
    assert s[..b] + s[b..] == s;
    ValueConcat(s[..b], s[b..], 2);
    ValueBound(s[b..], 2);
    TwoIsPow(|s| - b);
  }

  lemma TwoIsPow(n: nat)
    ensures Two(n) == Pow(2, n)
  {
  }

  lemma ShiftedValue(l: seq<nat>, b: nat)
    ensures Value(l + Nulls(b), 2) == Value(l, 2) * Two(b)
  {
    hide Value, Pow;
    ValueConcat(l, Nulls(b), 2);
    ValueZero(Nulls(b), 2);
  }

  lemma DivideOut(z: nat, carry: nat, m: nat, h: nat, l: nat, p: nat, w: nat)
    requires p > 0 && m == w * p && z < m && l < w && z + carry * m == p * (h * w + l)
    ensures z == l * p && carry == h
  {
    MulLe(l + 1, w, p);
    assert (l + 1) * p == l * p + p;
    MulLe(0, l, p);
    assert p * (h * w + l) == h * (w * p) + l * p;
    DivModUnique(z + carry * m, m, carry, z);
    DivModUnique(z + carry * m, m, h, l * p);
  }

  // The same with the carry put into the low bits: a rotation.
  lemma LeftRotation(y: seq<Byte>, z: seq<Byte>, b: nat)
    requires |z| == |y| > 0 && b < 8
    requires Value(z, 256) == Value(ShiftLeft(BitsOf(y), b), 2) + Value(BitsOf(y)[..b], 2)
    ensures BitsOf(z) == RotateLeft(BitsOf(y), b)
  {
    hide Value, Pow, BitsOf, Two;
    var s := BitsOf(y);
    var h, l := s[..b], s[b..];
    BitsValue(y);
    ShiftedValue(l, b);
    ValueConcat(l, h, 2);
    TwoIsPow(b);
    ModSmall(b, |s|);
    BitsAre(z, l + h);
  }

  // Division by 2^b with the remainders handed on.
  lemma RightBits(y: seq<Byte>, z: seq<Byte>, b: nat, r: nat)
    requires |z| == |y| > 0 && b < 8 && Value(y, 256) == Two(b) * Value(z, 256) + r && r < Two(b)
    ensures BitsOf(z) == ShiftRight(BitsOf(y), b)
    ensures r == Value(BitsOf(y)[|BitsOf(y)| - b..], 2)
  {
    hide Value, Pow, BitsOf, Two;
    var u := BitsOf(y)[..|BitsOf(y)| - b];
    RightParts(y, z, b, r);
    PadZeros(Nulls(b), u, 2);
    BitsAre(z, Nulls(b) + u);
  }

  lemma RightParts(y: seq<Byte>, z: seq<Byte>, b: nat, r: nat)
    requires |z| == |y| > 0 && b < 8 && Value(y, 256) == Two(b) * Value(z, 256) + r && r < Two(b)
    ensures Digits(BitsOf(y), 2)
    ensures Value(z, 256) == Value(BitsOf(y)[..|BitsOf(y)| - b], 2) && r == Value(BitsOf(y)[|BitsOf(y)| - b..], 2)
  {
    hide Value, Pow, BitsOf, Two;
    var k := |BitsOf(y)| - b;
    BitsValue(y);
    SplitBits(BitsOf(y), k);
    SameDivision(Value(z, 256), r, Value(BitsOf(y)[..k], 2), Value(BitsOf(y)[k..], 2), Two(b));
  }

  lemma SameDivision(q: nat, r: nat, q': nat, r': nat, p: nat)
    requires r < p && r' < p && p * q + r == q' * p + r'
    ensures q == q' && r == r'
  {
    DivModUnique(p * q + r, p, q, r);
    DivModUnique(p * q + r, p, q', r');
  }

  lemma RightRotation(y: seq<Byte>, z: seq<Byte>, b: nat)
    requires |z| == |y| > 0 && b < 8
    requires Value(z, 256) == Value(ShiftRight(BitsOf(y), b), 2)
                              + Value(BitsOf(y)[|BitsOf(y)| - b..], 2) * Two(8 * |y| - b)
    ensures BitsOf(z) == RotateRight(BitsOf(y), b)
  {
    hide Value, Pow, BitsOf, Two;
    var s := BitsOf(y);
    var u, w := s[..|s| - b], s[|s| - b..];
    BitsValue(y);
    PadZeros(Nulls(b), u, 2);
    ValueConcat(w, u, 2);
    TwoIsPow(|u|);
    ModSmall(b, |s|);
    BitsAre(z, w + u);
  }

  // Shifts in terms of the number the bytes stand for.
  lemma ShiftLeftValue(y: seq<Byte>, z: seq<Byte>, n: nat)
    requires |z| == |y| && n <= 8 * |y| && BitsOf(z) == ShiftLeft(BitsOf(y), n)
    ensures Pow(256, |y|) > 0 && Value(z, 256) == (Value(y, 256) * Two(n)) % Pow(256, |y|)
  {
    hide Value, Pow, BitsOf, Two;
    var s := BitsOf(y);
    BitsValue(y);
    BitsValue(z);
    BytesArePowers(|y|);
    SplitBits(s, n);
    var h, l := s[..n], s[n..];
    TwoAdd(|l|, n);
    ShiftedValue(l, n);
    ShiftedModulo(Value(y, 256), Value(h, 2), Value(l, 2), Two(|l|), Two(n), Two(8 * |y|));
  }

  lemma ShiftRightValue(y: seq<Byte>, z: seq<Byte>, n: nat)
    requires |z| == |y| && n <= 8 * |y| && BitsOf(z) == ShiftRight(BitsOf(y), n)
    ensures Value(z, 256) == Value(y, 256) / Two(n)
  {
    hide Value, Pow, BitsOf, Two;
    var s := BitsOf(y);
    BitsValue(y);
    BitsValue(z);
    SplitBits(s, |s| - n);
    var u, w := s[..|s| - n], s[|s| - n..];
    PadZeros(Nulls(n), u, 2);
    Quotient(Value(y, 256), Two(n), Value(u, 2), Value(w, 2));
  }

  lemma Quotient(v: nat, p: nat, q: nat, r: nat)
    requires p > 0 && v == q * p + r && r < p
    ensures v / p == q
  {
    DivModUnique(v, p, q, r);
  }

  lemma ShiftedModulo(v: nat, h: nat, l: nat, w: nat, p: nat, m: nat)
    requires p > 0 && l < w && v == h * w + l && m == w * p
    ensures m > 0 && (v * p) % m == l * p
  {
    MulLe(l + 1, w, p);
    assert (l + 1) * p == l * p + p;
    MulLe(0, l, p);
    assert (h * w + l) * p == h * (w * p) + l * p;
    DivModUnique(v * p, m, h, l * p);
  }

  // ------------------------------------------------------------- the loops

  method BytesLeft(val: array<Byte>, len: nat, k: nat)
    requires k < len <= val.Length
    modifies val
    ensures BitsOf(val[..len]) == ShiftLeft(old(BitsOf(val[..len])), 8 * k)
    ensures val[len..] == old(val[len..])
  {
    hide BitsOf, ShiftLeft;
    var i := 0;
    while i < len - k
      invariant 0 <= i <= len - k
      invariant forall j :: 0 <= j < i ==> val[j] == old(val[j + k])
      invariant forall j :: i <= j < val.Length ==> val[j] == old(val[j])
    {
      val[i] := val[i + k];
      i := i + 1;
    }
    while i < len
      invariant len - k <= i <= len
      invariant forall j :: 0 <= j < len - k ==> val[j] == old(val[j + k])
      invariant forall j :: len - k <= j < i ==> val[j] == 0
      invariant forall j :: len <= j < val.Length ==> val[j] == old(val[j])
    {
      val[i] := 0;
      i := i + 1;
    }
    ShiftedBytes(old(val[..len]), val[..len], k);
  }

  lemma ShiftedBytes(y: seq<Byte>, z: seq<Byte>, k: nat)
    requires |z| == |y| && k <= |y| && (forall j :: 0 <= j < |y| - k ==> z[j] == y[j + k])
    requires forall j :: |y| - k <= j < |y| ==> z[j] == 0
    ensures BitsOf(z) == ShiftLeft(BitsOf(y), 8 * k)
  {
    hide BitsOf;
    var n := |y| - k;
    assert z == y[k..] + z[n..] && y == y[..k] + y[k..];
    BitsConcat(y[..k], y[k..]);
    BitsConcat(y[k..], z[n..]);
    NullBytes(k, z[n..]);
  }

  method BytesRight(val: array<Byte>, len: nat, k: nat)
    requires k < len <= val.Length
    modifies val
    ensures BitsOf(val[..len]) == ShiftRight(old(BitsOf(val[..len])), 8 * k)
    ensures val[len..] == old(val[len..])
  {
    hide BitsOf, ShiftRight;
    var i := len - 1;
    while i >= k
      invariant k - 1 <= i < len
      invariant forall j :: i < j < len ==> val[j] == old(val[j - k])
      invariant forall j :: 0 <= j <= i ==> val[j] == old(val[j])
      invariant forall j :: len <= j < val.Length ==> val[j] == old(val[j])
    {
      val[i] := val[i - k];
      i := i - 1;
    }
    i := 0;
    while i < k
      invariant 0 <= i <= k
      invariant forall j :: 0 <= j < i ==> val[j] == 0
      invariant forall j :: k <= j < len ==> val[j] == old(val[j - k])
      invariant forall j :: len <= j < val.Length ==> val[j] == old(val[j])
    {
      val[i] := 0;
      i := i + 1;
    }
    UnshiftedBytes(old(val[..len]), val[..len], k);
  }

  lemma UnshiftedBytes(y: seq<Byte>, z: seq<Byte>, k: nat)
    requires |z| == |y| && k <= |y| && (forall j :: k <= j < |y| ==> z[j] == y[j - k])
    requires forall j :: 0 <= j < k ==> z[j] == 0
    ensures BitsOf(z) == ShiftRight(BitsOf(y), 8 * k)
  {
    hide BitsOf;
    var n := |y| - k;
    assert z == z[..k] + y[..n] && y == y[..n] + y[n..];
    BitsConcat(y[..n], y[n..]);
    BitsConcat(z[..k], y[..n]);
    NullBytes(k, z[..k]);
  }

  // Shifts every byte left by b bits, from the last one on.
  method BitsLeft(val: array<Byte>, len: nat, b: nat) returns (carry: nat)
    requires 0 < len <= val.Length && 0 < b < 8
    modifies val
    ensures Value(val[..len], 256) + carry * Pow(256, len) == Two(b) * old(Value(val[..len], 256))
    ensures carry == LeftCarry(old(val[0]), b)
    ensures val[len..] == old(val[len..])
  {
    hide Value, Pow, Two, LeftByte, LeftCarry;
    ghost var before: seq<nat> := val[..len];
    carry := 0;
    var i := len;
    NothingShifted(before, Two(b));
    while i > 0
      invariant 0 <= i <= len && carry < Two(b)
      invariant i < len ==> carry == LeftCarry(before[i], b)
      invariant val[..i] == before[..i] && val[len..] == old(val[len..])
      invariant Value(val[i..len], 256) + carry * Pow(256, len - i) == Two(b) * Value(before[i..], 256) + 0
    {
      i := i - 1;
      ghost var tail, c := val[i + 1..len], carry;
      var current := val[i];
      assert current == before[i] by { assert current == val[..i + 1][i]; }
      LeftStep(current, carry, b);
      val[i] := LeftByte(current, carry, b);
      carry := LeftCarry(current, b);
      ghost var after: seq<nat> := val[..len];
      assert after[i + 1..] == tail && after[i..] == val[i..len];
      MultiplyDigit(before, after, i, 256, Two(b), 0, c, carry);
    }
    assert before[0..] == before && val[0..len] == val[..len];
  }

  lemma NothingShifted(s: seq<nat>, m: nat)
    ensures Value(s[|s|..], 256) + 0 * Pow(256, 0) == m * Value(s[|s|..], 256)
  {
  }

  // Shifts every byte right by b bits, from the first one on.
  method BitsRight(val: array<Byte>, len: nat, b: nat) returns (carry: nat, ghost r: nat)
    requires 0 < len <= val.Length && 0 < b < 8
    modifies val
    ensures r < Two(b) && carry == r * Two(8 - b) == RightCarry(old(val[len - 1]), b)
    ensures old(Value(val[..len], 256)) == Two(b) * Value(val[..len], 256) + r
    ensures val[len..] == old(val[len..])
  {
    hide Value, Pow, Two, RightByte, RightCarry;
    ghost var before: seq<nat> := val[..len];
    carry := 0;
    r := 0;
    var i := 0;
    NothingDivided(Two(b), Two(8 - b));
    while i < len
      invariant 0 <= i <= len && r < Two(b) && carry == r * Two(8 - b)
      invariant i > 0 ==> carry == RightCarry(before[i - 1], b)
      invariant val[i..] == old(val[i..])
      invariant Value(before[..i], 256) == Two(b) * Value(val[..i], 256) + r
    {
      ghost var done := val[..i];
      var current := val[i];
      assert current == before[i] by { assert val[i..][0] == old(val[i..])[0]; }
      RightStep(current, r, b);
      val[i] := RightByte(current, carry, b);
      carry := RightCarry(current, b);
      assert val[..i + 1] == done + [val[i]] && before[..i + 1] == before[..i] + [before[i]];
      ValueSnoc(done, val[i], 256);
      ValueSnoc(before[..i], before[i], 256);
      DividedDigit(Value(before[..i], 256), Value(done, 256), current, val[i], r, Two(b), current % Two(b));
      r := current % Two(b);
      i := i + 1;
    }
    assert before[..len] == before;
  }

  lemma NothingDivided(p: nat, w: nat)
    ensures Value([], 256) == p * Value([], 256) + 0 && 0 * w == 0
  {
  }

  lemma DividedDigit(v: nat, z: nat, x: nat, y: nat, r: nat, p: nat, r': nat)
    requires v == p * z + r && 256 * r + x == p * y + r'
    ensures 256 * v + x == p * (256 * z + y) + r'
  {
    assert p * (256 * z) == 256 * (p * z);
  }

  // x->val[(i + k) % len], through a copy.
  method RotateBytes(val: array<Byte>, len: nat, k: nat)
    requires 0 < len <= val.Length && k <= len
    modifies val
    ensures BitsOf(val[..len]) == RotateLeft(old(BitsOf(val[..len])), 8 * k)
    ensures val[len..] == old(val[len..])
  {
    hide BitsOf, RotateLeft, Wrap;
    var temp := CopyOf(val, len);
    ghost var y := val[..len];
    var i := 0;
    while i < len
      invariant 0 <= i <= len && temp[..] == y && |y| == len
      invariant forall j :: 0 <= j < i ==> val[j] == y[Wrap(j + k, len)]
      invariant val[len..] == old(val[len..])
    {
      WrapIs(i + k, len);
      val[i] := temp[(i + k) % len];
      i := i + 1;
    }
    RotatedBytes(y, val[..len], k);
  }

  method CopyOf(val: array<Byte>, len: nat) returns (temp: array<Byte>)
    requires len <= val.Length
    ensures fresh(temp) && temp.Length == len && temp[..] == val[..len]
  {
    temp := new Byte[len](_ => 0);
    var i := 0;
    while i < len
      invariant 0 <= i <= len && temp[..i] == val[..i]
    {
      temp[i] := val[i];
      i := i + 1;
    }
  }

  function Wrap(i: nat, n: nat): (r: nat)
    requires n > 0
    ensures r < n
  {
    if i < n then i else if i < 2 * n then i - n else 0
  }

  lemma WrapIs(i: nat, n: nat)
    requires i < 2 * n
    ensures i % n == Wrap(i, n)
  {
    if i < n { DivModUnique(i, n, 0, i); } else { DivModUnique(i, n, 1, i - n); }
  }

  lemma RotatedBytes(y: seq<Byte>, z: seq<Byte>, k: nat)
    requires |z| == |y| > 0 && k <= |y|
    requires forall j :: 0 <= j < |y| ==> z[j] == y[Wrap(j + k, |y|)]
    ensures BitsOf(z) == RotateLeft(BitsOf(y), 8 * k)
  {
    hide BitsOf;
    assert z == y[k..] + y[..k] && y == y[..k] + y[k..];
    BitsConcat(y[..k], y[k..]);
    BitsConcat(y[k..], y[..k]);
    if k == |y| {
      DivModUnique(8 * k, 8 * |y|, 1, 0);
      assert y[k..] + y[..k] == y;
    } else {
      ModSmall(8 * k, 8 * |y|);
    }
  }

  // --------------------------------------------------------- the operations

  // Division and remainder as C has them: both truncate toward zero.
  function Quot(n: int, d: int): int
    requires d > 0
  {
    if n >= 0 then n / d else -(-n / d)
  }

  function Rem(n: int, d: int): int
    requires d > 0
  {
    if n >= 0 then n % d else -(-n % d)
  }

  lemma Truncated(n: int, d: int)
    requires d > 0
    ensures n == d * Quot(n, d) + Rem(n, d) && -d < Rem(n, d) < d
    ensures n >= 0 ==> 0 <= Quot(n, d) && 0 <= Rem(n, d) == n % d
    ensures n <= 0 ==> Quot(n, d) <= 0 && Rem(n, d) <= 0
  {
    TruncatedNonNegative(if n >= 0 then n else -n, d);
  }

  lemma TruncatedNonNegative(n: nat, d: int)
    requires d > 0
    ensures n == d * (n / d) + n % d && 0 <= n % d < d && 0 <= n / d
    ensures n == 0 ==> n / d == 0 && n % d == 0
  {
    DivMod(n, d);
    QuotientIsNat(n, d);
    if n == 0 { DivModUnique(n, d, 0, 0); }
  }

  class Octet {
    var val: array<Byte>
    var len: nat

    ghost predicate Valid()
      reads this
    {
      len <= val.Length
    }

    ghost function Bytes(): seq<Byte>
      reads this, val
      requires Valid()
    {
      val[..len]
    }

    // OCT_shl_bits
    method ShlBits(n: int)
      requires Valid()
      modifies this, val
      ensures Valid() && val == old(val)
      ensures n >= 8 * old(len) ==> len == 0 && val[..] == old(val[..])
      ensures n < 0 ==> len == old(len) && val[..] == old(val[..])
      ensures 0 <= n < 8 * old(len) ==> len == old(len) && val[len..] == old(val[len..])
                                        && BitsOf(Bytes()) == ShiftLeft(old(BitsOf(Bytes())), n)
    {
      hide BitsOf, Value, Pow, Two, ShiftLeft, ShiftRight;
      if n >= 8 * len {
        len := 0;
        return;
      }
      var byteShift, bitShift := Quot(n, 8), Rem(n, 8);
      Truncated(n, 8);
      ghost var s := BitsOf(val[..len]);
      NoShift(s);
      if byteShift > 0 {
        BytesLeft(val, len, byteShift);
      }
      ghost var y := val[..len];
      if bitShift > 0 {
        ghost var carry := BitsLeft(val, len, bitShift);
        LeftBits(y, val[..len], bitShift, carry);
      }
      if n >= 0 { TwoShifts(s, 8 * byteShift, bitShift); }
    }

    // OCT_shr_bits
    method ShrBits(n: int)
      requires Valid()
      modifies this, val
      ensures Valid() && val == old(val)
      ensures n >= 8 * old(len) ==> len == 0 && val[..] == old(val[..])
      ensures n < 0 ==> len == old(len) && val[..] == old(val[..])
      ensures 0 <= n < 8 * old(len) ==> len == old(len) && val[len..] == old(val[len..])
                                        && BitsOf(Bytes()) == ShiftRight(old(BitsOf(Bytes())), n)
    {
      hide BitsOf, Value, Pow, Two, ShiftLeft, ShiftRight;
      if n >= 8 * len {
        len := 0;
        return;
      }
      var byteShift, bitShift := Quot(n, 8), Rem(n, 8);
      Truncated(n, 8);
      ghost var s := BitsOf(val[..len]);
      NoShift(s);
      if byteShift > 0 {
        BytesRight(val, len, byteShift);
      }
      ghost var y := val[..len];
      if bitShift > 0 {
        var carry;
        ghost var r;
        carry, r := BitsRight(val, len, bitShift);
        RightBits(y, val[..len], bitShift, r);
      }
      if n >= 0 { TwoShifts(s, 8 * byteShift, bitShift); }
    }

    // OCT_circular_shl_bits
    method CircularShlBits(n0: int)
      requires Valid() && (len > 0 || n0 < 0)
      modifies val
      ensures Valid() && val[len..] == old(val[len..])
      ensures n0 < 0 ==> val[..] == old(val[..])
      ensures n0 >= 0 ==> BitsOf(Bytes()) == RotateLeft(old(BitsOf(Bytes())), n0)
    {
      hide BitsOf, Value, Pow, Two, RotateLeft, LeftCarry;
      var n := n0;
      ghost var s := BitsOf(val[..len]);
      if n >= 8 * len {
        Truncated(n0, 8 * len);
        n := Rem(n, 8 * len);
      }
      var byteShift, bitShift := Quot(n, 8), Rem(n, 8);
      Truncated(n, 8);
      if n >= 0 {
        ModOfLength(n0, 8 * len);
        NoRotation(s);
      }
      if byteShift > 0 {
        RotateBytes(val, len, byteShift);
      }
      ghost var y := val[..len];
      if bitShift > 0 {
        RotateBitsLeft(val, len, bitShift);
      }
      if n >= 0 {
        RotationsAdd(s, 8 * byteShift, bitShift);
        RotationMod(s, n0, n);
        NoRotation(BitsOf(y));
      }
    }

    // OCT_circular_shr_bits
    method CircularShrBits(n0: int)
      requires Valid() && (len > 0 || n0 < 0)
      modifies val
      ensures Valid() && val[len..] == old(val[len..])
      ensures n0 < 0 ==> val[..] == old(val[..])
      ensures n0 >= 0 ==> BitsOf(Bytes()) == RotateRight(old(BitsOf(Bytes())), n0)
    {
      hide BitsOf, Value, Pow, Two, RotateRight, RotateLeft, RightCarry;
      var n := n0;
      ghost var s := BitsOf(val[..len]);
      if n >= 8 * len {
        Truncated(n0, 8 * len);
        n := Rem(n, 8 * len);
      }
      var byteShift, bitShift := Quot(n, 8), Rem(n, 8);
      Truncated(n, 8);
      if n >= 0 {
        ModOfLength(n0, 8 * len);
        NoRotation(s);
      }
      if byteShift > 0 {
        RotateBytes(val, len, len - byteShift);
        RightIsLeft(s, 8 * byteShift);
        assert 8 * (len - byteShift) == |s| - 8 * byteShift;
      }
      ghost var y := val[..len];
      if bitShift > 0 {
        RotateBitsRight(val, len, bitShift);
      }
      if n >= 0 {
        RightRotationsAdd(s, 8 * byteShift, bitShift);
        RotationMod(s, n0, n);
        NoRotation(BitsOf(y));
      }
    }
  }

  lemma ModOfLength(n: nat, m: nat)
    requires m > 0
    ensures 0 <= n % m < m && (n < m ==> n % m == n) && (n % m) % m == n % m
  {
    DivMod(n, m);
    ModMod(n, m);
    if n < m { ModSmall(n, m); }
  }

  lemma NoRotation(s: seq<nat>)
    requires |s| > 0
    ensures RotateLeft(s, 0) == s && RotateRight(s, 0) == s
  {
  }

  lemma RotationMod(s: seq<nat>, m: nat, n: nat)
    requires |s| > 0 && m % |s| == n % |s|
    ensures RotateLeft(s, m) == RotateLeft(s, n) && RotateRight(s, m) == RotateRight(s, n)
  {
  }

  lemma RightIsLeft(s: seq<nat>, n: nat)
    requires |s| > 0 && n <= |s|
    ensures RotateRight(s, n) == RotateLeft(s, |s| - n)
  {
    var l := |s|;
    if n == 0 || n == l {
      DivModUnique(l, l, 1, 0);
      assert s[l..] + s[..l] == s[0..] + s[..0];
    } else {
      ModSmall(n, l);
      ModSmall(l - n, l);
    }
  }

  lemma RotationLength(s: seq<nat>, n: nat)
    requires |s| > 0
    ensures |RotateRight(s, n)| == |s|
  {
  }

  lemma RightRotationsAdd(s: seq<nat>, m: nat, n: nat)
    requires |s| > 0
    ensures RotateRight(RotateRight(s, m), n) == RotateRight(s, m + n)
  {
    hide RotateLeft, RotateRight;
    RotationLength(s, m);
    RotationLength(RotateRight(s, m), n);
    var t := RotateRight(RotateRight(s, m), n);
    RotationsUndo(s, m);
    RotationsUndo(RotateRight(s, m), n);
    RotationsAdd(t, n, m);
    assert n + m == m + n;
    RotationsUndo(t, m + n);
  }

  // The bits of the last byte that a left shift vacates take the carry in.
  method RotateBitsLeft(val: array<Byte>, len: nat, b: nat)
    requires 0 < len <= val.Length && 0 < b < 8
    modifies val
    ensures BitsOf(val[..len]) == RotateLeft(old(BitsOf(val[..len])), b)
    ensures val[len..] == old(val[len..])
  {
    hide BitsOf, Value, Pow, Two, LeftCarry, BitOr, BitAnd, ShiftLeft, RotateLeft;
    ghost var y := val[..len];
    CarryBound(val[0], b);
    var firstByteCarry := LeftCarry(val[0], b);
    var carry := BitsLeft(val, len, b);
    ghost var z := val[..len];
    LeftBits(y, z, b, carry);
    FillLast(y, z, b, carry);
    val[len - 1] := BitOr(val[len - 1], firstByteCarry);
    assert val[..len] == z[len - 1 := val[len - 1]];
    LeftRotation(y, val[..len], b);
  }

  lemma CarryBound(current: Byte, b: nat)
    requires 0 < b < 8
    ensures LeftCarry(current, b) < Two(b)
  {
    hide Two, BitAnd, BitOr;
    TwoPositive(b);
    LeftStep(current, 0, b);
  }

  lemma TwoPositive(b: nat)
    ensures 0 < Two(b)
  {
  }

  lemma FillLast(y: seq<Byte>, z: seq<Byte>, b: nat, carry: nat)
    requires |z| == |y| > 0 && 0 < b < 8 && carry < Two(b) && BitsOf(z) == ShiftLeft(BitsOf(y), b)
    ensures BitOr(z[|z| - 1], carry) < 256
    ensures Value(z[|z| - 1 := BitOr(z[|z| - 1], carry)], 256) == Value(ShiftLeft(BitsOf(y), b), 2) + carry
  {
    hide BitsOf, Value, Pow, Two, BitOr;
    var k := |z| - 1;
    BitsValue(z);
    var l := BitsOf(y)[b..];
    ShiftedValue(l, b);
    ValueSnoc(z[..k], z[k], 256);
    assert z == z[..k] + [z[k]];
    ByteSplit(b);
    var t := Value(l, 2) - Two(8 - b) * Value(z[..k], 256);
    Vacated(Value(l, 2), Two(b), Two(8 - b), Value(z[..k], 256), z[k], t);
    OrSum(t, carry, b);
    ValueSnoc(z[..k], z[k] + carry, 256);
    assert z[k := z[k] + carry] == z[..k] + [z[k] + carry];
  }

  lemma Vacated(l: nat, p: nat, w: nat, v: nat, x: nat, t: int)
    requires p > 0 && p * w == 256 && l * p == 256 * v + x && x < 256 && t == l - w * v
    ensures t >= 0 && x == t * p && x + p <= 256
  {
    assert (w * v) * p == 256 * v;
    assert t * p == l * p - (w * v) * p;
    if t < 0 { MulLe(t, -1, p); }
    if t >= w { MulLe(w, t, p); }
    MulLe(t + 1, w, p);
    assert (t + 1) * p == t * p + p;
  }

  // The bits of the first byte that a right shift vacates take the carry in.
  method RotateBitsRight(val: array<Byte>, len: nat, b: nat)
    requires 0 < len <= val.Length && 0 < b < 8
    modifies val
    ensures BitsOf(val[..len]) == RotateRight(old(BitsOf(val[..len])), b)
    ensures val[len..] == old(val[len..])
  {
    hide BitsOf, Value, Pow, Two, RightCarry, BitOr, BitAnd, ShiftRight, RotateRight;
    ghost var y := val[..len];
    var lastByteCarry := RightCarry(val[len - 1], b);
    var carry;
    ghost var r;
    carry, r := BitsRight(val, len, b);
    ghost var z := val[..len];
    RightBits(y, z, b, r);
    FillFirst(y, z, b, r);
    val[0] := BitOr(val[0], lastByteCarry);
    assert val[..len] == z[0 := val[0]];
    RightRotation(y, val[..len], b);
  }

  lemma FillFirst(y: seq<Byte>, z: seq<Byte>, b: nat, r: nat)
    requires |z| == |y| > 0 && 0 < b < 8 && r < Two(b) && BitsOf(z) == ShiftRight(BitsOf(y), b)
    ensures 0 <= r * Two(8 - b) && BitOr(z[0], r * Two(8 - b)) < 256
    ensures Value(z[0 := BitOr(z[0], r * Two(8 - b))], 256) == Value(ShiftRight(BitsOf(y), b), 2) + r * Two(8 * |y| - b)
  {
    hide BitsOf, Value, Pow, Two, BitOr, ShiftRight;
    BitsValue(z);
    FirstByte(y, z, b);
    ByteSplit(b);
    ProductBelow(r, Two(b), Two(8 - b));
    OrSum(r, z[0], 8 - b);
    OrBothWays(r * Two(8 - b), z[0]);
    AddToFirst(z, r * Two(8 - b));
    TwoAdd(8 - b, 8 * (|z| - 1));
    MulAssoc(r, Two(8 - b), Two(8 * (|z| - 1)));
  }

  lemma FirstByte(y: seq<Byte>, z: seq<Byte>, b: nat)
    requires |z| == |y| > 0 && 0 < b < 8 && BitsOf(z) == ShiftRight(BitsOf(y), b)
    ensures z[0] < Two(8 - b)
  {
    hide BitsOf, Value, Pow, Two;
    var k := |z| - 1;
    BitsValue(y);
    BitsValue(z);
    var u := BitsOf(y)[..8 * |y| - b];
    PadZeros(Nulls(b), u, 2);
    ValueBound(u, 2);
    TwoIsPow(8 * |y| - b);
    ValueCons(z, 256);
    BytesArePowers(k);
    TwoAdd(8 - b, 8 * k);
    TopVacated(z[0], Two(8 * k), Value(z[1..], 256), Two(8 - b));
  }

  lemma AddToFirst(z: seq<Byte>, d: nat)
    requires |z| > 0 && z[0] + d < 256
    ensures Value(z[0 := z[0] + d], 256) == Value(z, 256) + d * Two(8 * (|z| - 1))
  {
    hide Value, Pow, Two;
    var k := |z| - 1;
    BytesArePowers(k);
    ValueCons(z, 256);
    var z' := z[0 := z[0] + d];
    ValueCons(z', 256);
    assert z'[1..] == z[1..];
    assert (z[0] + d) * Two(8 * k) == z[0] * Two(8 * k) + d * Two(8 * k);
  }

  lemma TopVacated(x: nat, q: nat, v: nat, w: nat)
    requires x * q + v < w * q
    ensures x < w
  {
    if x >= w { MulLe(w, x, q); }
  }

  lemma NoShift(s: seq<nat>)
    ensures ShiftLeft(s, 0) == s && ShiftRight(s, 0) == s
  {
  }

  lemma TwoShifts(s: seq<nat>, m: nat, n: nat)
    requires m + n <= |s|
    ensures ShiftLeft(ShiftLeft(s, m), n) == ShiftLeft(s, m + n)
    ensures ShiftRight(ShiftRight(s, m), n) == ShiftRight(s, m + n)
    ensures n == 0 ==> ShiftLeft(s, m) == ShiftLeft(s, m + n) && ShiftRight(s, m) == ShiftRight(s, m + n)
  {
  }

  // On octets: a rotation one way and as much the other way restores the
  // bytes, and two rotations are one by the sum of their amounts.
  lemma RotateBack(x: seq<Byte>, y: seq<Byte>, z: seq<Byte>, n: nat)
    requires |x| == |y| == |z| > 0
    ensures BitsOf(y) == RotateLeft(BitsOf(x), n) && BitsOf(z) == RotateRight(BitsOf(y), n) ==> z == x
    ensures BitsOf(y) == RotateRight(BitsOf(x), n) && BitsOf(z) == RotateLeft(BitsOf(y), n) ==> z == x
  {
    hide BitsOf, RotateLeft, RotateRight;
    RotationsUndo(BitsOf(x), n);
    if BitsOf(z) == BitsOf(x) { BitsInjective(z, x); }
  }

  lemma RotateTwice(x: seq<Byte>, y: seq<Byte>, z: seq<Byte>, z': seq<Byte>, m: nat, n: nat)
    requires |x| == |y| == |z| == |z'| > 0
    requires BitsOf(y) == RotateLeft(BitsOf(x), m) && BitsOf(z) == RotateLeft(BitsOf(y), n)
    requires BitsOf(z') == RotateLeft(BitsOf(x), m + n)
    ensures z == z'
  {
    hide BitsOf, RotateLeft;
    RotationsAdd(BitsOf(x), m, n);
    BitsInjective(z, z');
  }
}
