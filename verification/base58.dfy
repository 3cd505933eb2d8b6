/** Base58 as base58.c computes it: an in-place base conversion each way. */
module Base58 {
  import opened Bits
  import opened CStrings
  import opened Limbs
  import opened Numbers
  import opened Radix

  // The alphabet, 123456789 A-Z a-z without I, O and l, by its runs.
  function CharOf(d: nat): (c: char)
    requires d < 58
  {
    if d < 9 then '1' + d as char
    else if d < 17 then 'A' + (d - 9) as char
    else if d < 22 then 'J' + (d - 17) as char
    else if d < 33 then 'P' + (d - 22) as char
    else if d < 44 then 'a' + (d - 33) as char
    else 'm' + (d - 44) as char
  }

  // The reverse table, -1 for a character outside the alphabet.
  function DigitOf(c: char): (d: int)
    ensures -1 <= d < 58
  {
    if '1' <= c <= '9' then c as int - '1' as int
    else if 'A' <= c <= 'H' then c as int - 'A' as int + 9
    else if 'J' <= c <= 'N' then c as int - 'J' as int + 17
    else if 'P' <= c <= 'Z' then c as int - 'P' as int + 22
    else if 'a' <= c <= 'k' then c as int - 'a' as int + 33
    else if 'm' <= c <= 'z' then c as int - 'm' as int + 44
    else -1
  }

  lemma CharDigit(d: nat)
    requires d < 58
    ensures DigitOf(CharOf(d)) == d
  {
  }

  lemma DigitChar(c: char)
    requires DigitOf(c) >= 0
    ensures CharOf(DigitOf(c)) == c
  {
  }

  // The digits and letters without 0, I, O and l, in the order of their codes.
  lemma AlphabetIs(d: nat, e: nat)
    requires d < e < 58
    ensures CharOf(d) < CharOf(e)
    ensures '1' <= CharOf(d) <= '9' || ('A' <= CharOf(d) <= 'Z' && CharOf(d) != 'I' && CharOf(d) != 'O')
              || ('a' <= CharOf(d) <= 'z' && CharOf(d) != 'l')
    ensures CharOf(57) == 'z'
  {
  }

  function Text(s: seq<nat>): (t: string)
    requires Digits(s, 58)
    ensures |t| == |s| && forall i :: 0 <= i < |s| ==> t[i] == CharOf(s[i])
  {
    seq(|s|, i requires 0 <= i < |s| => CharOf(s[i]))
  }

  // ------------------------------------------------- the 138/100 size bound

  lemma SmallPowers()
    ensures Pow(58, 7) >= Pow(2, 41) && Pow(58, 5) >= Pow(2, 29)
    ensures Pow(2, 8) == 256
  {
    Pow2At32();
    PowAdd(2, 32, 9);
    assert Pow(2, 4) == 16 && Pow(2, 3) == 8;
    PowAdd(2, 4, 4);
    PowAdd(2, 8, 1);
    PowAdd(2, 29, 3);
    PowTwo(58);
    PowAdd(58, 2, 2);
    PowAdd(58, 4, 1);
    PowAdd(58, 5, 2);
  }

  // 58^7 exceeds 2^41, so 58^138 exceeds 256^100.
  lemma RatioBound()
    ensures 0 < Pow(256, 100) <= Pow(58, 138)
  {
    hide Pow;
    SmallPowers();
    PowPositive(2, 41);
    BaseMonotone(Pow(2, 41), Pow(58, 7), 19);
    PowMul(58, 7, 19);
    PowMul(2, 41, 19);
    PowAdd(58, 133, 5);
    PowAdd(2, 779, 29);
    PowPositive(2, 779);
    PowPositive(58, 5);
    MulLe(Pow(2, 779), Pow(58, 133), Pow(58, 5));
    MulLe(Pow(2, 29), Pow(58, 5), Pow(2, 779));
    PowMonotone(2, 800, 808);
    PowMul(2, 8, 100);
  }

  lemma {:induction false} BaseMonotone(a: int, b: int, e: nat)
    requires 0 <= a <= b
    ensures 0 <= Pow(a, e) <= Pow(b, e)
  {
    if e != 0 {
      BaseMonotone(a, b, e - 1);
      MulLe(a, b, Pow(a, e - 1));
      MulLe(Pow(a, e - 1), Pow(b, e - 1), b);
      MulLe(0, a, Pow(a, e - 1));
    }
  }

  // 58^138k exceeds 256^100k.
  lemma ScaledRatio(k: nat)
    ensures 0 < Pow(256, 100 * k) <= Pow(58, 138 * k)
  {
    hide Pow;
    RatioBound();
    BaseMonotone(Pow(256, 100), Pow(58, 138), k);
    PowMul(256, 100, k);
    PowMul(58, 138, k);
    PowPositive(256, 100 * k);
  }

  // Comparing 100th powers compares the numbers.
  lemma HundredthRoot(a: nat, b: nat)
    requires 0 < b && Pow(a, 100) <= Pow(b, 100)
    ensures a <= b
  {
    hide Pow;
    if a > b { StrictMonotone(b, a, 100); }
  }

  lemma {:induction false} StrictMonotone(a: nat, b: nat, e: nat)
    requires a < b && e > 0
    ensures Pow(a, e) < Pow(b, e)
  {
    hide Pow;
    PowStep(a, e - 1);
    PowStep(b, e - 1);
    if e == 1 {
      PowTwo(a);
      PowTwo(b);
    } else {
      StrictMonotone(a, b, e - 1);
      BaseMonotone(a, b, e - 1);
      var x, y := Pow(a, e - 1), Pow(b, e - 1);
      MulLe(a, b - 1, x);
      MulLe(x, y, b - 1);
      assert (b - 1) * y == b * y - y;
    }
  }

  // Room for k bytes in 138k/100 + 1 digits, and for k - 1 of them in one
  // digit less.
  lemma SizeBound(k: nat)
    ensures Pow(256, k) <= Pow(58, k * 138 / 100 + 1)
    ensures k > 0 ==> Pow(256, k - 1) <= Pow(58, k * 138 / 100)
  {
    hide Pow;
    var f := k * 138 / 100;
    ScaledRatio(k);
    PowPositive(256, k);
    PowPositive(58, f + 1);
    PowPositive(58, f);
    // 100 (f + 1) > 138 k
    PowMul(256, k, 100);
    PowMul(58, f + 1, 100);
    PowMonotone(58, 138 * k, 100 * (f + 1));
    HundredthRoot(Pow(256, k), Pow(58, f + 1));
    if k > 0 {
      // 100 f + 99 >= 138 k, and 58^99 <= 256^100
      PowMul(256, k - 1, 100);
      PowMul(58, f, 100);
      PowMonotone(58, 138 * k, 100 * f + 99);
      PowAdd(58, 100 * f, 99);
      PowAdd(256, 100 * (k - 1), 100);
      BaseMonotone(58, 256, 99);
      PowPositive(256, k - 1);
      PowMonotone(256, 99, 100);
      PowPositive(256, 100);
      PowPositive(58, 99);
      ShareFactor(Pow(256, 100 * (k - 1)), Pow(256, 100), Pow(58, 100 * f), Pow(58, 99));
      HundredthRoot(Pow(256, k - 1), Pow(58, f));
    }
  }

  lemma ShareFactor(a: nat, x: nat, b: nat, y: nat)
    requires a * x <= b * y && 0 < y <= x
    ensures a <= b
  {
    if a > b {
      MulLe(b + 1, a, x);
      MulLe(y, x, b);
    }
  }

  // --------------------------------------------------------------- encoding

  function Ones(z: nat): (t: string)
    ensures |t| == z && forall i :: 0 <= i < z ==> t[i] == '1'
  {
    seq(z, _ => '1')
  }

  // What the encoding of a byte string is: a '1' for each leading zero byte,
  // then the value of the bytes in base 58.
  function Encoded(data: seq<Byte>): string {
    Ones(Zeros(data)) + Text(ToDigits(Value(data, 256), 58))
  }

  lemma NoCarry(v: nat, c: nat, q: nat)
    requires v + c * q < q
    ensures c == 0
  {
    if c > 0 { MulLe(1, c, q); }
  }

  lemma SkippedZeros(s: seq<nat>, j: nat, b: nat)
    requires j < |s| && b > 0 && AllZero(s[..j + 1])
    ensures Value(s, b) == Value(s[j + 1..], b)
  {
    PadZeros(s[..j + 1], s[j + 1..], b);
    assert s[..j + 1] + s[j + 1..] == s;
  }

  lemma PushStart(s: seq<nat>, a: nat)
    requires |s| > 0
    ensures Value(s[|s|..], 58) + a * Pow(58, 0) == 256 * Value(s[|s|..], 58) + a
  {
  }

  // One byte enters the digit buffer: multiply by 256, add the byte, and stop
  // once the carry is gone and the digits in use have all been visited. Index
  // 0 is never used as a loop bound, so what was there before must be zero.
  method PushByte(buf: array<nat>, high: nat, a: Byte) returns (high': nat)
    requires high < buf.Length && Digits(buf[..], 58) && AllZero(buf[..high + 1])
    requires 256 * Value(buf[..], 58) + a < Pow(58, buf.Length)
    modifies buf
    ensures Digits(buf[..], 58)
    ensures Value(buf[..], 58) == 256 * old(Value(buf[..], 58)) + a
    ensures high' < buf.Length && (high' > 0 ==> AllZero(buf[..high' + 1]))
  {
    hide Value, Pow;
    ghost var before := buf[..];
    var size := buf.Length;
    var j := size - 1;
    var carry: int := a;
    PushStart(before, a);
    while j > high || carry != 0
      invariant 0 <= j < size && 0 <= carry < 256
      invariant buf[..j + 1] == before[..j + 1]
      invariant Digits(buf[..], 58)
      invariant Value(buf[j + 1..], 58) + carry * Pow(58, size - 1 - j) == 256 * Value(before[j + 1..], 58) + a
      decreases j
    {
      ghost var c, tail := carry, buf[j + 1..];
      assert buf[j] == before[j] by { assert buf[j] == buf[..j + 1][j]; }
      carry := carry + 256 * buf[j];
      buf[j] := carry % 58;
      carry := carry / 58;
      assert buf[..][j + 1..] == tail;
      MultiplyDigit(before, buf[..], j, 58, 256, a, c, carry);
      if j == 0 {
        assert buf[..][0..] == buf[..] && before[0..] == before;
        NoCarry(Value(buf[..], 58), carry, Pow(58, size));
        return 0;
      }
      j := j - 1;
    }
    assert before[..j + 1] == before[..high + 1][..j + 1];
    SkippedZeros(before, j, 58);
    SkippedZeros(buf[..], j, 58);
    return j;
  }

  // The buffer never overflows, and its first digit stays zero until the last
  // byte has entered.
  lemma BufferSuffices(d: seq<Byte>, n: nat, size: nat)
    requires n <= |d| && size == |d| * 138 / 100 + 1
    ensures Value(d[..n], 256) < Pow(58, size)
    ensures n < |d| ==> Value(d[..n], 256) < Pow(58, size - 1)
  {
    hide Value, Pow;
    SizeBound(|d|);
    ValueBound(d[..n], 256);
    PowMonotone(256, n, |d|);
    if n < |d| { PowMonotone(256, n, |d| - 1); }
  }

  lemma FirstDigitZero(s: seq<nat>)
    requires |s| > 0 && Value(s, 58) < Pow(58, |s| - 1)
    ensures s[0] == 0 && AllZero(s[..1])
  {
    hide Value, Pow;
    if s[0] != 0 { LeadingDigit(s, 58); }
  }

  // The digits left once leading zeros are skipped.
  lemma SkippedDigits(s: seq<nat>, j: nat)
    requires Digits(s, 58) && j <= |s| && AllZero(s[..j]) && (j < |s| ==> s[j] != 0)
    ensures s[j..] == ToDigits(Value(s, 58), 58)
  {
    hide Value, ToDigits;
    PadZeros(s[..j], s[j..], 58);
    assert s[..j] + s[j..] == s;
    var t := ToDigits(Value(s, 58), 58);
    ToDigitsValue(Value(s, 58), 58);
    MinimalUnique(s[j..], t, 58);
  }

  // The base-58 digits of the bytes, converted in place.
  method Convert(data: array<Byte>, zcount: nat, binsz: nat) returns (buf: array<nat>)
    requires zcount <= binsz <= data.Length
    ensures fresh(buf) && buf.Length == (binsz - zcount) * 138 / 100 + 1
    ensures Digits(buf[..], 58) && Value(buf[..], 58) == Value(data[zcount..binsz], 256)
  {
    hide Value, Pow;
    var size := (binsz - zcount) * 138 / 100 + 1;
    buf := new nat[size](_ => 0);
    var i, high := zcount, size - 1;
    ghost var d: seq<Byte> := data[zcount..binsz];
    ValueZero(buf[..], 58);
    ValueZero(d[..0], 256);
    while i < binsz
      invariant zcount <= i <= binsz && 0 <= high < size
      invariant Digits(buf[..], 58) && Value(buf[..], 58) == Value(d[..i - zcount], 256)
      invariant i < binsz ==> AllZero(buf[..high + 1])
    {
      assert d[..i + 1 - zcount] == d[..i - zcount] + [data[i]];
      ValueSnoc(d[..i - zcount], data[i], 256);
      BufferSuffices(d, i + 1 - zcount, size);
      high := PushByte(buf, high, data[i]);
      if i + 1 < binsz && high == 0 { FirstDigitZero(buf[..]); }
      i := i + 1;
    }
    assert d[..|d|] == d;
  }

  lemma ZerosThenRest(d: seq<Byte>, z: nat)
    requires z == Zeros(d)
    ensures Value(d[z..], 256) == Value(d, 256)
  {
    hide Value;
    PadZeros(d[..z], d[z..], 256);
    assert d[..z] + d[z..] == d;
  }

  // A '1' for each leading zero, the characters of the digits from j on, and
  // the final NUL.
  method Write(b58: array<char>, zcount: nat, buf: array<nat>, start: nat)
    requires Digits(buf[..], 58) && start <= buf.Length && zcount + buf.Length - start < b58.Length
    modifies b58
    ensures b58[..] == Ones(zcount) + Text(buf[start..]) + [NUL] + old(b58[zcount + buf.Length - start + 1..])
  {
    hide CharOf, Text, Ones;
    ghost var t := Text(buf[start..]);
    var i, j := 0, start;
    while i < zcount
      invariant 0 <= i <= zcount
      invariant forall k :: 0 <= k < i ==> b58[k] == '1'
      invariant b58[i..] == old(b58[i..])
    {
      b58[i] := '1';
      i := i + 1;
    }
    while j < buf.Length
      invariant start <= j <= buf.Length && i == zcount + j - start
      invariant forall k :: 0 <= k < zcount ==> b58[k] == '1'
      invariant forall k :: zcount <= k < i ==> b58[k] == t[k - zcount]
      invariant b58[i..] == old(b58[i..])
    {
      b58[i] := CharOf(buf[j]);
      assert buf[start..][j - start] == buf[j];
      i, j := i + 1, j + 1;
    }
    b58[i] := NUL;
    assert b58[..zcount] == Ones(zcount) && b58[zcount..i] == t;
    assert b58[..] == b58[..zcount] + b58[zcount..i] + [b58[i]] + b58[i + 1..];
  }

  method Encode(b58: array<char>, b58sz: nat, data: array<Byte>, binsz: nat) returns (ok: bool, needed: nat)
    requires b58sz <= b58.Length && binsz <= data.Length
    modifies b58
    ensures needed == |Encoded(data[..binsz])| + 1
    ensures ok <==> needed <= b58sz
    ensures b58[..] == if ok then Encoded(data[..binsz]) + [NUL] + old(b58[needed..]) else old(b58[..])
  {
    hide Value, Pow, ToDigits;
    var zcount := 0;
    while zcount < binsz && data[zcount] == 0
      invariant 0 <= zcount <= binsz && AllZero(data[..zcount])
    {
      zcount := zcount + 1;
    }
    ghost var d: seq<Byte> := data[..binsz];
    assert d[..zcount] == data[..zcount] && d[zcount..] == data[zcount..binsz];
    ZerosUnique(d, zcount);
    ZerosThenRest(d, zcount);
    var buf := Convert(data, zcount, binsz);
    var size := buf.Length;
    var j := 0;
    while j < size && buf[j] == 0
      invariant 0 <= j <= size && AllZero(buf[..j])
    {
      j := j + 1;
    }
    SkippedDigits(buf[..], j);
    if b58sz <= zcount + size - j {
      return false, zcount + size - j + 1;
    }
    Write(b58, zcount, buf, j);
    return true, zcount + size - j + 1;
  }

  // to_base58 gives the encoder a buffer of twice the length.
  lemma TwiceIsEnough(data: seq<Byte>)
    requires |data| >= 2
    ensures |Encoded(data)| + 1 <= 2 * |data|
  {
    hide Value, Pow, ToDigits;
    var z := Zeros(data);
    ZerosThenRest(data, z);
    var d := data[z..];
    var s := ToDigits(Value(data, 256), 58);
    ToDigitsValue(Value(data, 256), 58);
    BufferSuffices(d, |d|, |d| * 138 / 100 + 1);
    assert d[..|d|] == d;
    if |s| > |d| * 138 / 100 + 1 {
      LeadingDigit(s, 58);
      PowMonotone(58, |d| * 138 / 100 + 1, |s| - 1);
    }
    if z == |data| {
      ValueZero(d, 256);
      assert s == [] by { if s != [] { LeadingDigit(s, 58); PowPositive(58, |s| - 1); } }
    }
  }

  // A single byte fits exactly below 58.
  lemma OneByteLength(x: Byte)
    ensures |Encoded([x])| == if x < 58 then 1 else 2
  {
    hide Value;
    var d: seq<Byte> := [x];
    assert Value(d, 256) == x by {
      ValueSnoc([], x, 256);
      ValueZero([], 256);
      assert [] + [x] == d;
    }
    DivMod(x, 58);
    assert x / 58 < 58;
    if x >= 58 {
      assert ToDigits(x / 58, 58) == ToDigits(0, 58) + [x / 58];
      assert ToDigits(x, 58) == ToDigits(x / 58, 58) + [x % 58];
    } else if x > 0 {
      assert ToDigits(x, 58) == ToDigits(0, 58) + [x];
    }
  }

  // So twice the length holds the text and its NUL for just these octets.
  lemma TwiceIsEnoughIff(data: seq<Byte>)
    requires data != []
    ensures |Encoded(data)| + 1 <= 2 * |data| <==> |data| >= 2 || data[0] < 58
  {
    hide Value, ToDigits, Zeros;
    if |data| >= 2 {
      TwiceIsEnough(data);
    } else {
      assert data == [data[0]];
      OneByteLength(data[0]);
    }
  }

  // --------------------------------------------------------------- decoding

  function Digit(c: char): (d: nat)
    ensures d < 58
  {
    if DigitOf(c) < 0 then 0 else DigitOf(c)
  }

  function DigitsOf(s: string): (t: seq<nat>)
    ensures Digits(t, 58) && |t| == |s| && forall i :: 0 <= i < |s| ==> t[i] == Digit(s[i])
  {
    seq(|s|, i requires 0 <= i < |s| => Digit(s[i]))
  }

  ghost predicate InAlphabet(s: string) {
    forall i :: 0 <= i < |s| ==> DigitOf(s[i]) >= 0
  }

  // What the decoder takes with a buffer of size bytes.
  ghost predicate Accepts(s: string, size: nat) {
    InAlphabet(s) && Value(DigitsOf(s), 58) < Pow(256, size)
  }

  // The C string the arguments name: a size of zero means up to the NUL.
  function StringIn(mem: seq<char>, size: nat): string
    requires size <= |mem|
  {
    if size == 0 then UpToNul(mem) else mem[..size]
  }

  lemma {:induction false} PrefixValue(s: seq<nat>, k: nat, b: nat)
    requires k <= |s| && b > 0
    ensures Value(s[..k], b) <= Value(s, b)
  {
    if k == |s| {
      assert s[..k] == s;
    } else {
      var n := |s| - 1;
      assert s[..n][..k] == s[..k];
      PrefixValue(s[..n], k, b);
      MulLe(1, b, Value(s[..n], b));
    }
  }

  // outi = 58 outi + d; what does not fit is the carry.
  method MulAdd58(outi: array<Word>, d: nat) returns (c: nat)
    requires d < 58
    modifies outi
    ensures Value(outi[..], B) + c * Pow(B, outi.Length) == 58 * old(Value(outi[..], B)) + d
    ensures outi.Length == 0 ==> c == d
  {
    hide Value, Pow;
    ghost var before: seq<nat> := outi[..];
    c := d;
    var j := outi.Length;
    MulStart(before, d);
    while j > 0
      invariant 0 <= j <= outi.Length && c < 58
      invariant outi[..j] == before[..j]
      invariant Value(outi[j..], B) + c * Pow(B, outi.Length - j) == 58 * Value(before[j..], B) + d
      invariant j == outi.Length ==> c == d
    {
      j := j - 1;
      ghost var tail, c0 := outi[j + 1..], c;
      assert outi[j] == before[j] by { assert outi[j] == outi[..j + 1][j]; }
      var t := outi[j] * 58 + c;
      c := t / B;
      outi[j] := t % B;
      assert outi[..][j + 1..] == tail;
      MultiplyDigit(before, outi[..], j, B, 58, d, c0, c);
    }
    assert outi[..] == outi[0..] && before == before[0..];
  }

  lemma MulStart(s: seq<nat>, d: nat)
    ensures Value(s[|s|..], B) + d * Pow(B, 0) == 58 * Value(s[|s|..], B) + d
  {
  }

  // The mask with the low 8k bits of a word clear.
  function ZeroMask(k: nat): nat {
    if k == 0 then 0 else (0xFFFF_FFFF * Pow(2, 8 * k)) % B
  }

  lemma MaskTest(x: Word, k: nat)
    requires 0 < k < 4
    ensures BitAnd(x, ZeroMask(k)) == 0 <==> x < Pow(256, k)
  {
    hide BitAnd;
    Pow2At32();
    var q, w := Pow(2, 8 * k), Pow(2, 32 - 8 * k);
    PowPositive(2, 8 * k);
    PowPositive(2, 32 - 8 * k);
    PowAdd(2, 32 - 8 * k, 8 * k);
    Pow2At8();
    PowMul(2, 8, k);
    MaskValue(q, w);
    AndHigh(x, w - 1, 8 * k);
    AndOnes(x / q, 32 - 8 * k);
    QuotientBound(x, q, w);
    ModSmall(x / q, w);
  }

  lemma NoMask(x: Word)
    ensures BitAnd(x, ZeroMask(0)) == 0
  {
  }

  lemma MaskValue(q: int, w: int)
    requires q > 0 && w > 0 && w * q == B
    ensures (0xFFFF_FFFF * q) % B == (w - 1) * q
  {
    assert (w - 1) * q == B - q;
    MulLe(1, w, q);
    DivModUnique(0xFFFF_FFFF * q, B, q - 1, B - q);
  }

  lemma QuotientBound(x: nat, q: int, w: int)
    requires q > 0 && x < w * q
    ensures 0 <= x / q < w && (x / q == 0 <==> x < q)
  {
    DivMod(x, q);
    if x / q >= w { MulLe(w, x / q, q); }
    if x / q > 0 { MulLe(1, x / q, q); }
  }

  // The low n bytes of a word, most significant first.
  method PutBytes(bin: array<Byte>, pos: nat, w: Word, n: nat)
    requires pos + n <= bin.Length && w < Pow(256, n)
    modifies bin
    ensures Value(bin[..pos + n], 256) == old(Value(bin[..pos], 256)) * Pow(256, n) + w
    ensures bin[pos + n..] == old(bin[pos + n..])
  {
    hide Value, Pow;
    var i := n;
    ghost var v := Value(bin[..pos], 256);
    WordStart(v, w, Pow(256, n));
    while i > 0
      invariant 0 <= i <= n && Pow(256, i) > 0
      invariant Value(bin[..pos + n - i], 256) == v * Pow(256, n - i) + w / Pow(256, i)
      invariant bin[pos + n - i..] == old(bin[pos + n - i..])
    {
      PowPositive(256, i - 1);
      PowStep(256, i - 1);
      PowStep(256, n - i);
      ghost var sofar := bin[..pos + n - i];
      var byte := (w / Pow(256, i - 1)) % 256;
      bin[pos + n - i] := byte;
      i := i - 1;
      assert bin[..pos + n - i] == sofar + [byte];
      ValueSnoc(sofar, byte, 256);
      ByteStep(v, Pow(256, n - i - 1), w, Pow(256, i), byte);
    }
    WordEnd(w);
  }

  lemma WordStart(v: int, w: nat, q: int)
    requires w < q
    ensures q > 0 && v * Pow(256, 0) + w / q == v
  {
    DivModUnique(w, q, 0, w);
  }

  lemma WordEnd(w: nat)
    ensures Pow(256, 0) > 0 && w / Pow(256, 0) == w
  {
  }

  lemma ByteStep(v: int, q: int, w: nat, p: int, byte: int)
    requires p > 0 && byte == (w / p) % 256
    ensures 256 * (v * q + w / (256 * p)) + byte == v * (256 * q) + w / p
  {
    var x := w / p;
    DivMod(w, p);
    DivMod(x, 256);
    assert w == (256 * p) * (x / 256) + (p * byte + w % p);
    MulLe(byte, 255, p);
    MulLe(0, byte, p);
    DivModUnique(w, 256 * p, x / 256, p * byte + w % p);
    assert 256 * (v * q) == v * (256 * q);
  }

  lemma WordsArePowers(n: nat)
    ensures Pow(B, n) == Pow(256, 4 * n)
  {
    Pow2At8();
    PowMul(2, 8, 4);
    Pow2At32();
    PowMul(256, 4, n);
  }

  // The first word is the only one that may be partly used.
  lemma Capacity(outi: seq<Word>, size: nat)
    requires |outi| == (size + 3) / 4
    ensures Pow(256, size) <= Pow(B, |outi|)
    ensures Value(outi, B) < Pow(256, size) <==> size % 4 == 0 || outi[0] < Pow(256, size % 4)
  {
    hide Value, Pow;
    var n, k := |outi|, size % 4;
    WordsArePowers(n);
    PowMonotone(256, size, 4 * n);
    ValueBound(outi, B);
    if k != 0 {
      WordsArePowers(n - 1);
      PowAdd(256, k, 4 * (n - 1));
      ValueCons(outi, B);
      ValueBound(outi[1..], B);
      LeadingPart(outi[0], Value(outi[1..], B), Pow(B, n - 1), Pow(256, k));
    }
  }

  lemma LeadingPart(x: nat, y: nat, q: int, p: int)
    requires y < q
    ensures x * q + y < p * q <==> x < p
  {
    if x < p { MulLe(x + 1, p, q); } else { MulLe(p, x, q); }
  }

  // Reads the digits from i on into outi.
  method ReadDigits(outi: array<Word>, size: nat, s: string, start: nat) returns (ok: bool)
    requires outi.Length == (size + 3) / 4 && start <= |s| && AllZero(outi[..])
    requires forall k :: 0 <= k < |s| ==> s[k] < 256 as char
    requires forall k :: 0 <= k < start ==> s[k] == '1'
    requires start < |s| ==> s[start] != '1'
    modifies outi
    ensures ok <==> Accepts(s, size)
    ensures ok ==> Value(outi[..], B) == Value(DigitsOf(s), 58)
  {
    hide Value, Pow, BitAnd;
    var i := start;
    ghost var t := DigitsOf(s);
    var bytesleft := size % 4;
    PowPositive(256, size);
    ValueZero(outi[..], B);
    ValueZero(t[..start], 58);
    while i < |s|
      invariant start <= i <= |s|
      invariant InAlphabet(s[..i])
      invariant Value(outi[..], B) == Value(t[..i], 58) < Pow(256, size)
      invariant size == 0 ==> i == start
    {
      if (s[i] as int / 128) % 2 == 1 {
        return false;
      }
      if DigitOf(s[i]) == -1 {
        return false;
      }
      var c := MulAdd58(outi, DigitOf(s[i]));
      assert t[..i + 1] == t[..i] + [t[i]];
      ValueSnoc(t[..i], t[i], 58);
      PrefixValue(t, i + 1, 58);
      Capacity(outi[..], size);
      if c != 0 {
        MulLe(1, c, Pow(B, outi.Length));
        return false;
      }
      if bytesleft > 0 { MaskTest(outi[0], bytesleft); } else { NoMask(outi[0]); }
      if BitAnd(outi[0], ZeroMask(bytesleft)) != 0 {
        return false;
      }
      i := i + 1;
    }
    assert s[..i] == s && t[..i] == t;
    return true;
  }

  // All four bytes of a word, before the end of the buffer.
  method PutWord(bin: array<Byte>, pos: nat, w: Word, size: nat)
    requires pos + 4 <= size <= bin.Length
    modifies bin
    ensures Value(bin[..pos + 4], 256) == B * old(Value(bin[..pos], 256)) + w
    ensures bin[size..] == old(bin[size..])
  {
    hide Value, Pow;
    WordsArePowers(1);
    PowTwo(B);
    ghost var rest := bin[pos + 4..];
    assert bin[size..] == rest[size - pos - 4..];
    PutBytes(bin, pos, w, 4);
    assert bin[size..] == bin[pos + 4..][size - pos - 4..];
  }

  // The words as bytes, the first one without its unused part.
  method WriteWords(bin: array<Byte>, size: nat, outi: array<Word>)
    requires size <= bin.Length && outi.Length == (size + 3) / 4
    requires Value(outi[..], B) < Pow(256, size)
    modifies bin
    ensures Value(bin[..size], 256) == Value(outi[..], B)
    ensures bin[size..] == old(bin[size..])
  {
    hide Value, Pow;
    var j, pos := 0, 0;
    Capacity(outi[..], size);
    ValueZero(bin[..0], 256);
    ValueZero(outi[..0], B);
    if size % 4 > 0 {
      PutBytes(bin, 0, outi[0], size % 4);
      assert outi[..1] == outi[..0] + [outi[0]];
      ValueSnoc(outi[..0], outi[0], B);
      j, pos := 1, size % 4;
    }
    while j < outi.Length
      invariant 0 <= j <= outi.Length && 0 <= pos == size - 4 * (outi.Length - j)
      invariant Value(bin[..pos], 256) == Value(outi[..j], B)
      invariant bin[size..] == old(bin[size..])
    {
      PutWord(bin, pos, outi[j], size);
      ValueSnoc(outi[..j], outi[j], B);
      assert outi[..j + 1] == outi[..j] + [outi[j]];
      j, pos := j + 1, pos + 4;
    }
    assert outi[..j] == outi[..];
  }

  method Decode(bin: array<Byte>, binsz: nat, b58: array<char>, b58sz: nat) returns (ok: bool, size: int)
    requires binsz <= bin.Length && b58sz <= b58.Length
    requires forall k :: 0 <= k < b58.Length ==> b58[k] < 256 as char
    requires b58sz == 0 ==> NUL in b58[..]
    modifies bin
    ensures ok <==> Accepts(StringIn(b58[..], b58sz), binsz)
    ensures !ok ==> size == binsz && bin[..] == old(bin[..])
    ensures ok ==> Value(bin[..binsz], 256) == Value(DigitsOf(StringIn(b58[..], b58sz)), 58)
    ensures ok ==> size == binsz - Zeros(bin[..binsz]) + Zeros(DigitsOf(StringIn(b58[..], b58sz)))
    ensures bin[binsz..] == old(bin[binsz..])
  {
    hide Value, Pow, DigitOf, Digit;
    var outi := new Word[(binsz + 3) / 4](_ => 0);
    var length := b58sz;
    if b58sz == 0 {
      length := Length(b58);
    }
    ghost var s, t := StringIn(b58[..], b58sz), DigitsOf(StringIn(b58[..], b58sz));
    assert s == b58[..length];
    var i := 0;
    while i < length && b58[i] == '1'
      invariant 0 <= i <= length && forall k :: 0 <= k < i ==> b58[k] == '1'
    {
      i := i + 1;
    }
    var zerocount := i;
    ok := ReadDigits(outi, binsz, b58[..length], i);
    size := binsz;
    if ok {
      DigitOfOne(s, zerocount);
      Capacity(outi[..], binsz);
      WriteWords(bin, binsz, outi);
      size := WithoutZeros(bin, binsz);
      size := size + zerocount;
    }
  }

  // The size once more, less one for each leading zero byte.
  method WithoutZeros(bin: array<Byte>, binsz: nat) returns (size: int)
    requires binsz <= bin.Length
    ensures size == binsz - Zeros(bin[..binsz])
  {
    var i := 0;
    size := binsz;
    while i < binsz && bin[i] == 0
      invariant 0 <= i <= binsz && AllZero(bin[..i]) && size == binsz - i
    {
      i, size := i + 1, size - 1;
    }
    assert bin[..binsz][..i] == bin[..i];
    ZerosUnique(bin[..binsz], i);
  }

  lemma DigitOfOne(s: string, n: nat)
    requires InAlphabet(s) && n <= |s| && (forall k :: 0 <= k < n ==> s[k] == '1')
    requires n < |s| ==> s[n] != '1'
    ensures Zeros(DigitsOf(s)) == n
  {
    ZerosUnique(DigitsOf(s), n);
  }

  // ------------------------------------------------------------ round trips

  // Accepted are the texts over the alphabet whose number so many bytes hold.
  lemma AcceptsIff(s: string, size: nat)
    ensures InAlphabet(s) <==> forall i :: 0 <= i < |s| ==>
              '1' <= s[i] <= '9' || ('A' <= s[i] <= 'Z' && s[i] != 'I' && s[i] != 'O')
              || ('a' <= s[i] <= 'z' && s[i] != 'l')
    ensures Accepts(s, size) <==>
              InAlphabet(s) && exists bin: seq<Byte> :: |bin| == size && Value(bin, 256) == Value(DigitsOf(s), 58)
  {
    hide Value, Pow, DigitsOf;
    var v := Value(DigitsOf(s), 58);
    if Accepts(s, size) {
      FixedValue(v, 256, size);
      FixedDigits(v, 256, size);
      var bin: seq<Byte> := Fixed(v, 256, size);
      assert |bin| == size && Value(bin, 256) == v;
    }
    forall bin: seq<Byte> | |bin| == size && Value(bin, 256) == v ensures v < Pow(256, size) { ValueBound(bin, 256); }
  }

  // What decoding leaves behind, as the method's contract has it.
  ghost predicate DecodesTo(s: string, size: nat, bin: seq<Byte>, length: int) {
    && |bin| == size && Accepts(s, size)
    && Value(bin, 256) == Value(DigitsOf(s), 58)
    && length == size - Zeros(bin) + Zeros(DigitsOf(s))
  }

  // The digits of an encoded byte string.
  lemma EncodedDigits(data: seq<Byte>)
    ensures InAlphabet(Encoded(data))
    ensures Value(DigitsOf(Encoded(data)), 58) == Value(data, 256)
    ensures Zeros(DigitsOf(Encoded(data))) == Zeros(data)
  {
    hide Value, ToDigits, DigitOf, CharOf, Text, Ones, DigitsOf;
    var z := Zeros(data);
    var d := ToDigits(Value(data, 256), 58);
    TextDigits(z, d);
    PadZeros(seq(z, _ => 0), d, 58);
    ToDigitsValue(Value(data, 256), 58);
    PaddedZeros(seq(z, _ => 0), d);
    ZeroFirst(d);
  }

  lemma ZeroFirst(s: seq<nat>)
    requires s == [] || s[0] != 0
    ensures Zeros(s) == 0
  {
  }

  lemma TextDigits(z: nat, d: seq<nat>)
    requires Digits(d, 58)
    ensures InAlphabet(Ones(z) + Text(d))
    ensures DigitsOf(Ones(z) + Text(d)) == seq(z, _ => 0) + d
  {
    hide DigitOf, CharOf;
    OneIsZero();
    forall i | 0 <= i < |d| ensures DigitOf(CharOf(d[i])) == d[i] { CharDigit(d[i]); }
  }

  lemma OneIsZero()
    ensures DigitOf('1') == 0
  {
  }

  // A zero-padded byte string has the padding as further leading zeros.
  lemma PaddedZeros(pad: seq<nat>, s: seq<nat>)
    requires AllZero(pad)
    ensures Zeros(pad + s) == |pad| + Zeros(s)
  {
    var z := Zeros(s);
    assert (pad + s)[..|pad| + z] == pad + s[..z];
    ZerosUnique(pad + s, |pad| + z);
  }

  // Decoding undoes encoding, leading zeros included, in any buffer at least
  // as long as the data: the data are its last bytes.
  lemma DecodeEncoded(data: seq<Byte>, size: nat, bin: seq<Byte>, length: int)
    ensures size >= |data| ==> Accepts(Encoded(data), size)
    ensures size >= |data| && DecodesTo(Encoded(data), size, bin, length) ==>
              length == |data| && bin[size - |data|..] == data
  {
    hide Value, Pow;
    EncodedDigits(data);
    if size >= |data| {
      ValueBound(data, 256);
      PowMonotone(256, |data|, size);
      if DecodesTo(Encoded(data), size, bin, length) {
        var pad: seq<nat> := seq(size - |data|, _ => 0);
        PadZeros(pad, data, 256);
        ValueInjective(bin, pad + data, 256);
        PaddedZeros(pad, data);
      }
    }
  }

  // Encoding undoes decoding whenever the announced length fits the buffer.
  lemma EncodeDecoded(s: string, size: nat, bin: seq<Byte>, length: int)
    requires DecodesTo(s, size, bin, length)
    ensures 0 <= length
    ensures length <= size ==> Encoded(bin[size - length..]) == s
  {
    hide Value, Pow, ToDigits, DigitOf, CharOf, Text, Ones, DigitsOf;
    if length <= size {
      var t := DigitsOf(s);
      var y, z := Zeros(bin), Zeros(t);
      var data := bin[size - length..];
      assert bin[..y][..size - length] == bin[..size - length];
      PadZeros(bin[..size - length], data, 256);
      assert bin[..size - length] + data == bin;
      PaddedZeros(bin[..size - length], data);
      SkippedDigits(t, z);
      DigitsText(s, z);
    }
  }

  lemma DigitsText(s: string, z: nat)
    requires InAlphabet(s) && z == Zeros(DigitsOf(s))
    ensures s == Ones(z) + Text(DigitsOf(s)[z..])
  {
    hide DigitOf, CharOf;
    var t := DigitsOf(s);
    OneIsZero();
    forall i | 0 <= i < |s| ensures CharOf(t[i]) == s[i] { DigitChar(s[i]); }
    forall i | 0 <= i < z ensures s[i] == '1' { DigitChar('1'); assert t[i] == t[..z][i]; }
  }

  // A zero byte and the letter a.
  lemma KnownAnswer()
    ensures Encoded([0, 0x61]) == "12g"
  {
    hide Value, ToDigits;
    ValueSnoc([0], 0x61, 256);
    ValueZero([0], 256);
    assert [0] + [0x61] == [0, 0x61];
    DivModUnique(0x61, 58, 1, 39);
    TwoDigits(0x61);
    assert Zeros([0, 0x61]) == 1;
    assert Text([1, 39]) == "2g";
    assert Ones(1) == "1";
  }

  lemma TwoDigits(v: nat)
    requires 58 <= v < 58 * 58
    ensures ToDigits(v, 58) == [v / 58, v % 58]
  {
    DivMod(v, 58);
    assert 1 <= v / 58 < 58;
    assert ToDigits(v / 58, 58) == ToDigits(0, 58) + [v / 58];
  }
}
