/** Numbers written with digits in an arbitrary base, most significant digit
    first. */
module Radix {
  import opened Numbers

  function Value(s: seq<nat>, b: nat): nat {
    if s == [] then 0 else b * Value(s[..|s| - 1], b) + s[|s| - 1]
  }

  ghost predicate Digits(s: seq<nat>, b: nat) {
    forall i :: 0 <= i < |s| ==> s[i] < b
  }

  ghost predicate AllZero(s: seq<nat>) {
    forall i :: 0 <= i < |s| ==> s[i] == 0
  }

  lemma ValueSnoc(s: seq<nat>, d: nat, b: nat)
    ensures Value(s + [d], b) == b * Value(s, b) + d
  {
    assert (s + [d])[..|s|] == s;
  }

  lemma {:induction false} ValueConcat(s: seq<nat>, t: seq<nat>, b: nat)
    ensures Value(s + t, b) == Value(s, b) * Pow(b, |t|) + Value(t, b)
  {
    if t == [] {
      assert s + t == s;
    } else {
      var k := |t| - 1;
      assert (s + t)[..|s| + k] == s + t[..k];
      ValueConcat(s, t[..k], b);
      ConcatStep(b, Value(s, b), Value(t[..k], b), Pow(b, k));
    }
  }

  lemma ConcatStep(b: int, v: int, w: int, q: int)
    ensures b * (v * q + w) == v * (b * q) + b * w
  {
    assert b * (v * q) == v * (b * q);
  }

  lemma ValueCons(s: seq<nat>, b: nat)
    requires |s| > 0
    ensures Value(s, b) == s[0] * Pow(b, |s| - 1) + Value(s[1..], b)
  {
    ValueConcat([s[0]], s[1..], b);
    assert [s[0]] + s[1..] == s;
    assert [s[0]][..0] == [];
  }

  lemma AppendBound(b: int, v: int, q: int, d: int)
    requires b > 0 && v < q && d < b
    ensures b * v + d < b * q
  {
    MulLe(v + 1, q, b);
    assert b * (v + 1) == b * v + b;
  }

  lemma {:induction false} ValueBound(s: seq<nat>, b: nat)
    requires b > 0 && Digits(s, b)
    ensures Value(s, b) < Pow(b, |s|)
  {
    if s != [] {
      var k := |s| - 1;
      ValueBound(s[..k], b);
      AppendBound(b, Value(s[..k], b), Pow(b, k), s[k]);
    }
  }

  lemma {:induction false} ValueZero(s: seq<nat>, b: nat)
    requires b > 0
    ensures Value(s, b) == 0 <==> AllZero(s)
  {
    if s != [] {
      var k := |s| - 1;
      ValueZero(s[..k], b);
      if Value(s[..k], b) > 0 { MulLe(1, Value(s[..k], b), b); }
      assert forall i :: 0 <= i < k ==> s[i] == s[..k][i];
    }
  }

  lemma PadZeros(z: seq<nat>, s: seq<nat>, b: nat)
    requires b > 0 && AllZero(z)
    ensures Value(z + s, b) == Value(s, b)
  {
    ValueConcat(z, s, b);
    ValueZero(z, b);
  }

  // Equal values of equal lengths come from equal digits.
  lemma {:induction false} ValueInjective(s: seq<nat>, t: seq<nat>, b: nat)
    requires b > 0 && |s| == |t| && Digits(s, b) && Digits(t, b) && Value(s, b) == Value(t, b)
    ensures s == t
  {
    if s != [] {
      var k := |s| - 1;
      DivModUnique(Value(s, b), b, Value(s[..k], b), s[k]);
      DivModUnique(Value(t, b), b, Value(t[..k], b), t[k]);
      ValueInjective(s[..k], t[..k], b);
      assert s == s[..k] + [s[k]] && t == t[..k] + [t[k]];
    }
  }

  // A leading non-zero digit makes the number at least b^(length - 1).
  lemma LeadingDigit(s: seq<nat>, b: nat)
    requires b > 0 && |s| > 0 && s[0] > 0
    ensures Value(s, b) >= Pow(b, |s| - 1)
  {
    ValueCons(s, b);
    PowPositive(b, |s| - 1);
    MulLe(1, s[0], Pow(b, |s| - 1));
  }

  // How many leading zeros a digit string has.
  function Zeros(s: seq<nat>): (z: nat)
    ensures z <= |s| && AllZero(s[..z])
    ensures z < |s| ==> s[z] != 0
  {
    if s == [] || s[0] != 0 then 0
    else
      var z := Zeros(s[1..]);
      assert forall i :: 1 <= i <= z ==> s[i] == s[1..][..z][i - 1];
      assert z + 1 < |s| ==> s[z + 1] == s[1..][z];
      z + 1
  }

  lemma ZerosUnique(s: seq<nat>, z: nat)
    requires z <= |s| && AllZero(s[..z]) && (z < |s| ==> s[z] != 0)
    ensures Zeros(s) == z
  {
    assert forall i :: 0 <= i < z ==> s[i] == s[..z][i];
  }

  // Digit strings without leading zeros are determined by their value, even
  // when their lengths are not known to agree.
  lemma MinimalUnique(s: seq<nat>, t: seq<nat>, b: nat)
    requires b > 1 && Digits(s, b) && Digits(t, b) && Value(s, b) == Value(t, b)
    requires (s == [] || s[0] != 0) && (t == [] || t[0] != 0)
    ensures s == t
  {
    if |s| < |t| { LongerIsLarger(s, t, b); }
    if |t| < |s| { LongerIsLarger(t, s, b); }
    ValueInjective(s, t, b);
  }

  lemma LongerIsLarger(s: seq<nat>, t: seq<nat>, b: nat)
    requires b > 1 && Digits(s, b) && Digits(t, b) && |s| < |t| && t[0] != 0
    ensures Value(s, b) < Value(t, b)
  {
    ValueBound(s, b);
    LeadingDigit(t, b);
    PowMonotone(b, |s|, |t| - 1);
  }

  // One digit of a long multiplication by m: the digits after position j have
  // been multiplied, and the carry has weight b^(number of those digits).
  lemma MultiplyDigit(before: seq<nat>, after: seq<nat>, j: nat, b: nat, m: nat, a: nat, c: nat, c': nat)
    requires j < |before| == |after|
    requires Value(after[j + 1..], b) + c * Pow(b, |before| - 1 - j) == m * Value(before[j + 1..], b) + a
    requires b * c' + after[j] == m * before[j] + c
    ensures Value(after[j..], b) + c' * Pow(b, |before| - j) == m * Value(before[j..], b) + a
  {
    hide Value, Pow;
    PowStep(b, |before| - 1 - j);
    ValueCons(before[j..], b);
    ValueCons(after[j..], b);
    assert before[j..][1..] == before[j + 1..] && after[j..][1..] == after[j + 1..];
    DigitColumn(b, m, before[j], after[j], c, c', Pow(b, |before| - 1 - j),
                Value(after[j + 1..], b), Value(before[j + 1..], b), a);
  }

  lemma DigitColumn(b: int, m: int, x: int, y: int, c: int, c': int, q: int, w: int, v: int, a: int)
    requires w + c * q == m * v + a && b * c' + y == m * x + c
    ensures y * q + w + c' * (b * q) == m * (x * q + v) + a
  {
    assert (b * c' + y) * q == c' * (b * q) + y * q;
    assert (m * x + c) * q == m * (x * q) + c * q;
    assert m * (x * q + v) == m * (x * q) + m * v;
  }

  // The digits of v without leading zeros; none for v = 0.
  function ToDigits(v: nat, b: nat): (s: seq<nat>)
    requires b > 1
    ensures Digits(s, b) && (s == [] || s[0] != 0)
  {
    if v == 0 then [] else
      assert v / b < v by { QuotientSmaller(v, b); }
      var s := ToDigits(v / b, b);
      assert s == [] ==> v / b == 0 by { if v / b != 0 { assert ToDigits(v / b, b) != []; } }
      assert v / b == 0 ==> v % b == v by { DivMod(v, b); }
      s + [v % b]
  }

  lemma QuotientSmaller(v: nat, b: nat)
    requires b > 1 && v > 0
    ensures 0 <= v / b < v
  {
    DivMod(v, b);
    if v / b >= v { MulLe(2, b, v / b); }
  }

  lemma {:induction false} ToDigitsValue(v: nat, b: nat)
    requires b > 1
    ensures Value(ToDigits(v, b), b) == v
  {
    if v != 0 {
      QuotientSmaller(v, b);
      ToDigitsValue(v / b, b);
      ValueSnoc(ToDigits(v / b, b), v % b, b);
      DivMod(v, b);
    }
  }

  // The low n digits of v, leading zeros included.
  function Fixed(v: nat, b: nat, n: nat): (s: seq<nat>)
    requires b > 0
    ensures |s| == n
    decreases n
  {
    if n == 0 then [] else
      assert 0 <= v / b && 0 <= v % b by { QuotientIsNat(v, b); }
      Fixed(v / b, b, n - 1) + [v % b]
  }

  lemma QuotientIsNat(v: nat, b: nat)
    requires b > 0
    ensures 0 <= v / b && 0 <= v % b < b && v == b * (v / b) + v % b
  {
  }

  lemma {:induction false} FixedDigits(v: nat, b: nat, n: nat)
    requires b > 0
    ensures Digits(Fixed(v, b, n), b)
    decreases n
  {
    if n != 0 {
      QuotientIsNat(v, b);
      FixedDigits(v / b, b, n - 1);
    }
  }

  lemma {:induction false} FixedValue(v: nat, b: nat, n: nat)
    requires b > 0 && v < Pow(b, n)
    ensures Value(Fixed(v, b, n), b) == v
    decreases n
  {
    hide Pow, Value;
    if n == 0 {
      FixedNone(v, b);
    } else {
      QuotientIsNat(v, b);
      PowStep(b, n - 1);
      if v / b >= Pow(b, n - 1) { MulLe(Pow(b, n - 1), v / b, b); }
      FixedValue(v / b, b, n - 1);
      ValueSnoc(Fixed(v / b, b, n - 1), v % b, b);
    }
  }

  lemma FixedNone(v: nat, b: nat)
    requires b > 0 && v < Pow(b, 0)
    ensures Value([], b) == v
  {
  }

  // The n digits a value below b^n has are the only ones.
  lemma FixedUnique(s: seq<nat>, b: nat)
    requires b > 0 && Digits(s, b)
    ensures Fixed(Value(s, b), b, |s|) == s
  {
    hide Value, Fixed, Pow;
    ValueBound(s, b);
    FixedValue(Value(s, b), b, |s|);
    FixedDigits(Value(s, b), b, |s|);
    ValueInjective(Fixed(Value(s, b), b, |s|), s, b);
  }
}
