/** Regrouping of bits through a wrapping 32-bit accumulator, as convert_bits of
    segwit_addr.c and the Base32 codecs of encoding.c do it. */
module BitGroups {
  import opened Bits
  import opened Numbers
  import opened Radix

  // ------------------------------------------------------------ convert_bits

  // Shifting k bits into a 32-bit accumulator drops what overflows, but the
  // bits still wanted are exact.
  lemma ShiftIn(val: nat, x: nat, k: nat, bits: nat)
    requires val < B && k <= 8 && bits + k <= 32 && x < Two(k)
    ensures 0 <= val * Two(k)
    ensures BitOr((val * Two(k)) % B, x) < B
    ensures BitOr((val * Two(k)) % B, x) % Two(bits + k) == (val % Two(bits)) * Two(k) + x
  {
    hide Pow, BitOr;
    var q, p, h := Two(k), Two(bits), Two(32 - k);
    Pow2At32();
    PowAdd(2, 32 - k, k);
    PowAdd(2, bits, k);
    PowAdd(2, 32 - k - bits, bits);
    MulLe(0, val, q);
    WrappedProduct(val, h, q);
    OrDisjoint(val % h, x, k);
    WrappedAppend(val, h, q, x, p, Two(32 - k - bits));
  }

  lemma WrappedProduct(val: nat, h: int, q: int)
    requires h > 0 && q > 0 && h * q == B
    ensures (val * q) % B == (val % h) * q
  {
    DivMod(val, h);
    var d, r := val / h, val % h;
    assert val * q == (h * d + r) * q == d * (h * q) + r * q;
    MulLe(r + 1, h, q);
    MulLe(0, r, q);
    DivModUnique(val * q, B, d, r * q);
  }

  lemma WrappedAppend(val: nat, h: int, q: int, x: int, p: int, w: int)
    requires h > 0 && q > 0 && p > 0 && w > 0 && h == w * p && h * q == B && 0 <= x < q
    ensures p * q > 0
    ensures (val % h) * q + x < B
    ensures ((val % h) * q + x) % (p * q) == (val % p) * q + x
  {
    var r := val % h;
    MulLe(r + 1, h, q);
    assert (r + 1) * q == r * q + q;
    NestedMod(val, w, p);
    ScaledMod(r, p, q);
    MulLe(1, p, q);
    MulLe(r % p + 1, p, q);
    assert (r % p + 1) * q == (r % p) * q + q;
    AddSmall(r * q, p * q, (r % p) * q, x);
  }

  lemma NestedMod(val: nat, w: int, p: int)
    requires w > 0 && p > 0
    ensures w * p > 0 && (val % (w * p)) % p == val % p
  {
    MulLe(1, w, p);
    DivMod(val, w * p);
    var k := val / (w * p);
    assert (w * p) * k == (w * k) * p;
    ModShift(val, val % (w * p), w * k, p);
  }

  lemma AddSmall(a: int, m: int, r: int, x: int)
    requires m > 0 && a % m == r && 0 <= x && r + x < m
    ensures (a + x) % m == r + x
  {
    DivMod(a, m);
    DivModUnique(a + x, m, a / m, r + x);
  }

  // Taking the top k of k + bits pending bits out.
  lemma TakeOut(val: nat, bits: nat, k: nat)
    ensures 0 <= val / Two(bits)
    ensures BitAnd(val / Two(bits), Two(k) - 1) == (val / Two(bits)) % Two(k)
    ensures val % Two(bits + k) == ((val / Two(bits)) % Two(k)) * Two(bits) + val % Two(bits)
  {
    hide Pow, BitAnd;
    PowAdd(2, bits, k);
    DivMod(val, Two(bits));
    QuotientIsNat(val, Two(bits));
    AndOnes(val / Two(bits), k);
    SplitMod(val, Two(bits), Two(k));
  }

  lemma SplitMod(val: nat, p: int, q: int)
    requires p > 0 && q > 0
    ensures p * q > 0
    ensures val % (p * q) == ((val / p) % q) * p + val % p
  {
    var d, e := val / p, (val / p) / q;
    DivMod(val, p);
    DivMod(d, q);
    MulLe(1, p, q);
    assert p * d == p * (q * e + d % q) == (p * q) * e + (d % q) * p;
    MulLe(d % q + 1, q, p);
    MulLe(0, d % q, p);
    DivModUnique(val, p * q, e, (d % q) * p + val % p);
  }

  // What is left when the input ends, aligned to the top of an output group.
  lemma LeftOver(val: nat, bits: nat, k: nat)
    requires bits <= k <= 8
    ensures 0 <= val * Two(k - bits)
    ensures BitAnd((val * Two(k - bits)) % B, Two(k) - 1) == (val % Two(bits)) * Two(k - bits)
    ensures (val % Two(bits)) * Two(k - bits) < Two(k)
    ensures (val % Two(bits)) * Two(k - bits) == 0 <==> val % Two(bits) == 0
  {
    hide Pow, BitAnd;
    var p, q := Two(bits), Two(k - bits);
    PowAdd(2, bits, k - bits);
    MulLe(0, val, q);
    AndOnes((val * q) % B, k);
    Pow2At32();
    PowAdd(2, 32 - k, k);
    NestedMod(val * q, Two(32 - k), Two(k));
    ScaledMod(val, p, q);
    MulLe(val % p + 1, p, q);
    if val % p > 0 { MulLe(1, val % p, q); }
  }

  lemma ScaledMod(v: nat, p: int, q: int)
    requires p > 0 && q > 0
    ensures p * q > 0 && (v * q) % (p * q) == (v % p) * q
  {
    DivMod(v, p);
    MulLe(1, p, q);
    assert v * q == (p * (v / p) + v % p) * q == (p * q) * (v / p) + (v % p) * q;
    MulLe(v % p + 1, p, q);
    MulLe(0, v % p, q);
    DivModUnique(v * q, p * q, v / p, (v % p) * q);
  }

  // Groups of k bits written so far, followed by the low bits of val that are
  // still pending, make up the number total.
  ghost predicate Pending(o: seq<nat>, k: nat, val: nat, bits: nat, total: nat) {
    Digits(o, Two(k)) && Value(o, Two(k)) * Two(bits) + val % Two(bits) == total
  }

  // One group more.
  lemma PendingOut(o: seq<nat>, k: nat, val: nat, bits: nat, total: nat)
    requires Pending(o, k, val, bits, total) && k <= bits && k <= 8
    ensures 0 <= val / Two(bits - k)
    ensures 0 <= BitAnd(val / Two(bits - k), Two(k) - 1) < 256
    ensures Pending(o + [BitAnd(val / Two(bits - k), Two(k) - 1)], k, val, bits - k, total)
  {
    hide Value, Pow, BitAnd;
    TakeOut(val, bits - k, k);
    var d := (val / Two(bits - k)) % Two(k);
    PowMonotone(2, k, 8);
    Pow2At8();
    ValueSnoc(o, d, Two(k));
    PowAdd(2, bits - k, k);
    GroupStep(Value(o, Two(k)), d, Two(k), Two(bits - k), val % Two(bits - k));
  }

  lemma GroupStep(v: int, d: int, q: int, p: int, r: int)
    ensures (q * v + d) * p + r == v * (p * q) + (d * p + r)
  {
    assert (q * v) * p == v * (p * q);
  }

  // One input group more.
  lemma PendingIn(o: seq<nat>, k: nat, val: nat, bits: nat, i: seq<nat>, x: nat, m: nat)
    requires val < B && m <= 8 && bits + m <= 32 && x < Two(m)
    requires Pending(o, k, val, bits, Value(i, Two(m)))
    ensures 0 <= val * Two(m)
    ensures BitOr((val * Two(m)) % B, x) < B
    ensures Pending(o, k, BitOr((val * Two(m)) % B, x), bits + m, Value(i + [x], Two(m)))
  {
    hide Value, Pow, BitOr;
    ShiftIn(val, x, m, bits);
    ValueSnoc(i, x, Two(m));
    PowAdd(2, bits, m);
    InStep(Value(o, Two(k)), Two(bits), Two(m), val % Two(bits), x);
  }

  lemma InStep(v: int, p: int, q: int, r: int, x: int)
    ensures v * (p * q) + (r * q + x) == q * (v * p + r) + x
  {
    assert q * (v * p) == v * (p * q);
  }

  // The inner loop: writes groups while enough bits are pending.
  method Emit(out: array<Byte>, base: nat, outlen: nat, k: nat, val: nat, pending: nat, ghost total: nat)
    returns (outlen': nat, bits: nat)
    requires 0 < k <= 8 && base + outlen + pending / k <= out.Length
    requires Pending(out[base..base + outlen], k, val, pending, total)
    modifies out
    ensures bits < k && outlen' * k + bits == outlen * k + pending
    ensures outlen <= outlen' && base + outlen' <= out.Length
    ensures Pending(out[base..base + outlen'], k, val, bits, total)
    ensures forall j :: 0 <= j < out.Length && !(base <= j < base + outlen') ==> out[j] == old(out[j])
  {
    hide Value, Pow, BitAnd, Pending, Two;
    outlen', bits := outlen, pending;
    RoundDown(pending, k);
    while bits >= k
      invariant 0 <= bits && outlen <= outlen' && base + outlen' <= out.Length
      invariant outlen' * k + bits == outlen * k + pending
      invariant Pending(out[base..base + outlen'], k, val, bits, total)
      invariant forall j :: 0 <= j < out.Length && !(base <= j < base + outlen') ==> out[j] == old(out[j])
    {
      ghost var o := out[base..base + outlen'];
      PendingOut(o, k, val, bits, total);
      Space(outlen, pending, outlen', bits, k);
      bits := bits - k;
      out[base + outlen'] := BitAnd(val / Two(bits), Two(k) - 1);
      assert out[base..base + outlen' + 1] == o + [out[base + outlen']];
      OneGroupMore(outlen', k);
      outlen' := outlen' + 1;
    }
  }

  lemma Space(n: nat, pending: nat, n': nat, bits: nat, k: nat)
    requires 0 < k <= bits && n' * k + bits == n * k + pending
    ensures n' < n + pending / k
  {
    RoundDown(pending, k);
    var q := pending / k;
    assert (n + q) * k == n * k + q * k;
    if n' >= n + q { MulLe(n + q, n', k); }
  }

  lemma OneGroupMore(n: nat, k: nat)
    ensures (n + 1) * k == n * k + k
  {
  }

  // What regrouping m-bit groups into k-bit ones means: the same number, with
  // zero bits appended to fill the last group, or with the bits that do not
  // fill a group cut off.
  function Padded(i: seq<nat>, m: nat, k: nat): (o: seq<nat>)
    requires k > 0
  {
    var n := (|i| * m + k - 1) / k;
    assert 0 <= n && n * k >= |i| * m by { RoundUp(|i| * m, k); }
    Fixed(Value(i, Two(m)) * Two(n * k - |i| * m), Two(k), n)
  }

  function Cut(i: seq<nat>, m: nat, k: nat): (o: seq<nat>)
    requires k > 0
  {
    var n := |i| * m / k;
    assert 0 <= n * k <= |i| * m && n >= 0 by { RoundDown(|i| * m, k); }
    assert 0 <= Value(i, Two(m)) / Two(|i| * m - n * k) by { QuotientIsNat(Value(i, Two(m)), Two(|i| * m - n * k)); }
    Fixed(Value(i, Two(m)) / Two(|i| * m - n * k), Two(k), n)
  }

  // The bits cut off are fewer than an input group and all zero.
  ghost predicate CutIsPadding(i: seq<nat>, m: nat, k: nat)
    requires k > 0
  {
    var n := |i| * m / k;
    assert 0 <= n * k <= |i| * m by { RoundDown(|i| * m, k); }
    |i| * m - n * k < m && Value(i, Two(m)) % Two(|i| * m - n * k) == 0
  }

  lemma RoundUp(v: nat, k: nat)
    requires k > 0
    ensures var n := (v + k - 1) / k; 0 <= n && v <= n * k < v + k
  {
    QuotientIsNat(v + k - 1, k);
  }

  lemma RoundDown(v: nat, k: nat)
    requires k > 0
    ensures var n := v / k; 0 <= n && n * k <= v < n * k + k
  {
    QuotientIsNat(v, k);
  }

  lemma QuotientIs(v: nat, k: nat, n: nat, r: nat)
    requires k > 0 && v == n * k + r && r < k
    ensures n == v / k
  {
    DivModUnique(v, k, n, r);
  }

  lemma Room(n: nat, bits: nat, j: nat, m: nat, k: nat, inlen: nat)
    requires k > 0 && n * k + bits == j * m && j < inlen
    ensures (bits + m) / k >= 0 && n + (bits + m) / k <= (inlen * m + k - 1) / k
  {
    MulLe(j + 1, inlen, m);
    RoundDown(bits + m, k);
    RoundUp(inlen * m, k);
    var q, t := (bits + m) / k, (inlen * m + k - 1) / k;
    assert (n + q) * k == n * k + q * k <= inlen * m <= t * k;
    if n + q > t { MulLe(t + 1, n + q, k); }
  }

  // One turn of the outer loop: a group is shifted in.
  method Feed(out: array<Byte>, base: nat, outlen: nat, k: nat, val: nat, bits: nat, x: nat, m: nat, ghost i: seq<nat>)
    returns (outlen': nat, val': nat, bits': nat)
    requires 0 < k <= 8 && 0 < m <= 8 && val < B && bits < k && x < Two(m)
    requires base + outlen + (bits + m) / k <= out.Length && base + outlen <= out.Length
    requires Pending(out[base..base + outlen], k, val, bits, Value(i, Two(m)))
    modifies out
    ensures val' < B && bits' < k && outlen' * k + bits' == outlen * k + bits + m
    ensures outlen <= outlen' && base + outlen' <= out.Length
    ensures Pending(out[base..base + outlen'], k, val', bits', Value(i + [x], Two(m)))
    ensures forall j :: 0 <= j < out.Length && !(base <= j < base + outlen') ==> out[j] == old(out[j])
  {
    hide Value, Pow, BitOr, Pending, Two;
    PendingIn(out[base..base + outlen], k, val, bits, i, x, m);
    val' := BitOr((val * Two(m)) % B, x);
    outlen', bits' := Emit(out, base, outlen, k, val', bits + m, Value(i + [x], Two(m)));
  }

  // The outer loop: reads every input group and writes the full output groups.
  method Regroup(out: array<Byte>, base: nat, k: nat, inp: array<Byte>, start: nat, inlen: nat, m: nat)
    returns (outlen: nat, val: nat, bits: nat)
    requires 0 < k <= 8 && 0 < m <= 8 && out != inp && start + inlen <= inp.Length
    requires Digits(inp[start..start + inlen], Two(m))
    requires base + (inlen * m + k - 1) / k <= out.Length
    modifies out
    ensures bits < k && base + outlen <= out.Length && outlen * k + bits == inlen * m
    ensures Pending(out[base..base + outlen], k, val, bits, Value(inp[start..start + inlen], Two(m)))
    ensures forall j :: 0 <= j < out.Length && !(base <= j < base + outlen) ==> out[j] == old(out[j])
  {
    hide Value, Pow, BitOr, Pending, Two;
    val, bits, outlen := 0, 0, 0;
    var j := 0;
    ghost var i: seq<nat> := inp[start..start + inlen];
    NothingYet(k, m);
    assert out[base..base] == [] && i[..0] == [];
    RoundUp(inlen * m, k);
    while j < inlen
      invariant 0 <= j <= inlen && val < B && bits < k && base + outlen <= out.Length
      invariant outlen * k + bits == j * m
      invariant Pending(out[base..base + outlen], k, val, bits, Value(i[..j], Two(m)))
      invariant forall j :: 0 <= j < out.Length && !(base <= j < base + outlen) ==> out[j] == old(out[j])
    {
      var x := inp[start + j];
      assert i[j] == x && i[..j + 1] == i[..j] + [x];
      Room(outlen, bits, j, m, k, inlen);
      OneGroupMore(j, m);
      outlen, val, bits := Feed(out, base, outlen, k, val, bits, x, m, i[..j]);
      j := j + 1;
    }
    assert i[..j] == i;
  }

  method ConvertBits(out: array<Byte>, base: nat, k: nat, inp: array<Byte>, start: nat, inlen: nat, m: nat, pad: bool)
    returns (ok: bool, outlen: nat)
    requires 0 < k <= 8 && 0 < m <= 8 && out != inp && start + inlen <= inp.Length
    requires Digits(inp[start..start + inlen], Two(m))
    requires base + (inlen * m + k - 1) / k <= out.Length
    modifies out
    ensures base + outlen <= out.Length
    ensures pad ==> ok && out[base..base + outlen] == Padded(inp[start..start + inlen], m, k)
    ensures !pad ==> out[base..base + outlen] == Cut(inp[start..start + inlen], m, k)
    ensures !pad ==> (ok <==> CutIsPadding(inp[start..start + inlen], m, k))
    ensures forall j :: 0 <= j < out.Length && !(base <= j < base + outlen) ==> out[j] == old(out[j])
  {
    hide Value, Pow, BitAnd, BitOr, Pending, Two, Padded, Cut, CutIsPadding;
    var val, bits;
    outlen, val, bits := Regroup(out, base, k, inp, start, inlen, m);
    ghost var i: seq<nat> := inp[start..start + inlen];
    LeftOver(val, bits, k);
    ghost var o := out[base..base + outlen];
    if pad {
      if bits != 0 {
        PaddedIs(o, i, m, k, val, bits);
        out[base + outlen] := BitAnd((val * Two(k - bits)) % B, Two(k) - 1);
        outlen := outlen + 1;
        assert out[base..base + outlen] == o + [out[base + outlen - 1]];
      } else {
        ExactlyFull(o, i, m, k, val);
      }
    } else {
      CutIs(o, i, m, k, val, bits);
      if BitAnd((val * Two(k - bits)) % B, Two(k) - 1) != 0 || bits >= m {
        return false, outlen;
      }
    }
    return true, outlen;
  }

  lemma NothingYet(k: nat, m: nat)
    ensures Pending([], k, 0, 0, Value([], Two(m)))
  {
  }

  lemma PaddedIs(o: seq<nat>, i: seq<nat>, m: nat, k: nat, val: nat, bits: nat)
    requires 0 < bits < k <= 8 && |o| * k + bits == |i| * m && Pending(o, k, val, bits, Value(i, Two(m)))
    ensures 0 <= val * Two(k - bits) && 0 <= BitAnd((val * Two(k - bits)) % B, Two(k) - 1) < 256
    ensures |o| + 1 == (|i| * m + k - 1) / k
    ensures o + [BitAnd((val * Two(k - bits)) % B, Two(k) - 1)] == Padded(i, m, k)
  {
    hide Value, Pow, BitAnd, Fixed;
    LeftOver(val, bits, k);
    var v, n := |i| * m, |o| + 1;
    OneGroupMore(|o|, k);
    QuotientIs(v + k - 1, k, n, bits - 1);
    var d := (val % Two(bits)) * Two(k - bits);
    PowMonotone(2, k, 8);
    Pow2At8();
    ValueSnoc(o, d, Two(k));
    PowAdd(2, bits, k - bits);
    PadStep(Value(o, Two(k)), Two(bits), Two(k - bits), val % Two(bits));
    FixedUnique(o + [d], Two(k));
  }

  lemma PadStep(v: int, p: int, q: int, r: int)
    ensures (p * q) * v + r * q == (v * p + r) * q
  {
    assert (p * q) * v == (v * p) * q;
  }

  lemma ExactlyFull(o: seq<nat>, i: seq<nat>, m: nat, k: nat, val: nat)
    requires 0 < k && |o| * k == |i| * m && Pending(o, k, val, 0, Value(i, Two(m)))
    ensures |o| == (|i| * m + k - 1) / k
    ensures o == Padded(i, m, k)
  {
    hide Value, Fixed;
    QuotientIs(|i| * m + k - 1, k, |o|, k - 1);
    FixedUnique(o, Two(k));
  }

  lemma CutIs(o: seq<nat>, i: seq<nat>, m: nat, k: nat, val: nat, bits: nat)
    requires bits < k && |o| * k + bits == |i| * m && Pending(o, k, val, bits, Value(i, Two(m)))
    ensures o == Cut(i, m, k)
    ensures CutIsPadding(i, m, k) <==> bits < m && val % Two(bits) == 0
  {
    hide Value, Pow, Fixed;
    QuotientIs(|i| * m, k, |o|, bits);
    QuotientIsNat(val, Two(bits));
    DivModUnique(Value(i, Two(m)), Two(bits), Value(o, Two(k)), val % Two(bits));
    FixedUnique(o, Two(k));
  }

  lemma PadSize(n: nat)
    ensures var t := (n * 8 + 4) / 5; t >= 0 && n * 8 <= t * 5 < n * 8 + 5 && t * 5 / 8 == n
  {
  }

  lemma PowersOfTwo(n: nat, t: nat)
    ensures Two(8) == 256 && Two(5) == 32
    ensures Pow(Two(8), n) == Two(n * 8) && Pow(Two(5), t) == Two(t * 5)
  {
    Pow2At8();
    PowMul(2, 8, n);
    PowMul(2, 5, t);
    assert Pow(2, 5) == 32;
  }

  // Padding 8-bit groups to 5-bit ones leaves what cutting undoes, exactly.
  lemma CutPadded(b: seq<nat>)
    requires Digits(b, 256)
    ensures Digits(Padded(b, 8, 5), 32)
    ensures CutIsPadding(Padded(b, 8, 5), 5, 8) && Cut(Padded(b, 8, 5), 5, 8) == b
  {
    hide Value, Pow, Fixed, Two;
    var n, t := |b|, (|b| * 8 + 4) / 5;
    var r := t * 5 - n * 8;
    PadSize(n);
    PowersOfTwo(n, t);
    var v := Value(b, 256);
    ValueBound(b, 256);
    TwoAdd(n * 8, r);
    MulLe(v + 1, Two(n * 8), Two(r));
    FixedValue(v * Two(r), 32, t);
    FixedDigits(v * Two(r), 32, t);
    DivModUnique(v * Two(r), Two(r), v, 0);
    FixedUnique(b, 256);
  }

  lemma CutFits(v: nat, w: nat, p: nat)
    requires p > 0 && v < w * p && v % p == 0
    ensures 0 <= v / p < w && (v / p) * p == v
  {
    QuotientIsNat(v, p);
    if v / p >= w { MulLe(w, v / p, p); }
  }

  // And what cutting accepts, padding gives back.
  lemma PaddedCut(s: seq<nat>)
    requires Digits(s, 32) && CutIsPadding(s, 5, 8)
    ensures Digits(Cut(s, 5, 8), 256)
    ensures Padded(Cut(s, 5, 8), 8, 5) == s
  {
    hide Value, Pow, Fixed, Two;
    var t, n := |s|, |s| * 5 / 8;
    var r := t * 5 - n * 8;
    PowersOfTwo(n, t);
    var v := Value(s, 32);
    ValueBound(s, 32);
    TwoAdd(n * 8, r);
    CutFits(v, Two(n * 8), Two(r));
    FixedValue(v / Two(r), 256, n);
    FixedDigits(v / Two(r), 256, n);
    FixedUnique(s, 32);
  }

  // Regrouping from 5 to 8 bits without padding succeeds exactly on the
  // outputs of the padded regrouping from 8 to 5.
  lemma CutAcceptsPadded(s: seq<nat>)
    requires Digits(s, 32)
    ensures CutIsPadding(s, 5, 8) <==> exists b: seq<nat> :: Digits(b, 256) && Padded(b, 8, 5) == s
  {
    hide Value, Fixed, Padded, Cut, CutIsPadding;
    if CutIsPadding(s, 5, 8) {
      PaddedCut(s);
    }
    forall b: seq<nat> | Digits(b, 256) && Padded(b, 8, 5) == s ensures CutIsPadding(s, 5, 8) {
      CutPadded(b);
    }
  }
}
