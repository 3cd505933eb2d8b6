/** The Bech32 checksum as segwit_addr.c computes it: a 30-bit shift register
    over GF(2), fed one 5-bit symbol at a time. */
module Polymod {
  const LIMIT: bv32 := 0x4000_0000

  function Xor(x: bv32, y: bv32): bv32 {
    x ^ y
  }

  // -((b >> i) & 1) & g where b is what lies above bit 25.
  function Tap(pre: bv32, i: bv32, g: bv32): bv32
    requires i < 5
  {
    Mask(TopBit(pre, i), g)
  }

  function Mask(t: bv32, g: bv32): bv32 {
    (0 - t) & g
  }

  function TopBit(pre: bv32, i: bv32): bv32
    requires i < 5
  {
    ((pre >> 25) >> i) & 1
  }

  function Low(pre: bv32): bv32 {
    (pre & 0x1FF_FFFF) << 5
  }

  // bech32_polymod_step
  function Step(pre: bv32): bv32 {
    Xor(Xor(Xor(Xor(Xor(Low(pre), Tap(pre, 0, 0x3b6a57b2)), Tap(pre, 1, 0x26508e6d)),
                Tap(pre, 2, 0x1ea119fa)), Tap(pre, 3, 0x3d4233dd)), Tap(pre, 4, 0x2a1462b3))
  }

  lemma XorLaws(a: bv32, b: bv32)
    ensures Xor(a, b) == Xor(b, a) && Xor(a, a) == 0 && Xor(Xor(a, b), b) == a && Xor(a, 0) == a
    ensures Xor(a, Xor(a, b)) == b
    ensures Xor(a, b) == 0 <==> a == b
  {
  }

  lemma XorSwap(a: bv32, a': bv32, b: bv32, b': bv32)
    ensures Xor(Xor(a, a'), Xor(b, b')) == Xor(Xor(a, b), Xor(a', b'))
  {
    hide Xor;
    XorAssoc(a, a', Xor(b, b'));
    XorAssoc(a', b, b');
    XorLaws(a', b);
    XorAssoc(b, a', b');
    XorAssoc(a, b, Xor(a', b'));
  }

  lemma XorAssoc(a: bv32, b: bv32, c: bv32)
    ensures Xor(Xor(a, b), c) == Xor(a, Xor(b, c))
  {
  }

  lemma XorBound(a: bv32, b: bv32)
    requires a < LIMIT && b < LIMIT
    ensures Xor(a, b) < LIMIT
  {
  }

  lemma TapLinear(x: bv32, y: bv32, i: bv32, g: bv32)
    requires i < 5
    ensures Tap(Xor(x, y), i, g) == Xor(Tap(x, i, g), Tap(y, i, g))
  {
    hide Tap, TopBit, Xor;
    TapBit(x, i, g);
    TapBit(y, i, g);
    TapBit(Xor(x, y), i, g);
    TopBitLinear(x, y, i);
    XorLaws(g, g);
    XorLaws(g, 0);
    XorLaws(0, 0);
  }

  lemma TapBit(x: bv32, i: bv32, g: bv32)
    requires i < 5
    ensures TopBit(x, i) == 0 ==> Tap(x, i, g) == 0
    ensures TopBit(x, i) != 0 ==> Tap(x, i, g) == g
  {
    hide TopBit, Mask;
    TopBitIsBit(x, i);
    BitMask(TopBit(x, i), g);
  }

  lemma TopBitIsBit(x: bv32, i: bv32)
    requires i < 5
    ensures TopBit(x, i) == 0 || TopBit(x, i) == 1
  {
    OneBit((x >> 25) >> i);
  }

  lemma OneBit(x: bv32)
    ensures x & 1 == 0 || x & 1 == 1
  {
  }

  lemma BitMask(t: bv32, g: bv32)
    requires t == 0 || t == 1
    ensures Mask(t, g) == if t == 0 then 0 else g
  {
    if t == 0 {
      assert (0 - t) & g == 0;
    } else {
      assert 0 - t == 0xFFFF_FFFF;
    }
  }

  lemma TopBitLinear(x: bv32, y: bv32, i: bv32)
    requires i < 5
    ensures TopBit(Xor(x, y), i) != 0 <==> (TopBit(x, i) != 0) != (TopBit(y, i) != 0)
  {
    ShiftXor(x, y, i);
    LowBitXor((x >> 25) >> i, (y >> 25) >> i);
  }

  lemma ShiftXor(x: bv32, y: bv32, i: bv32)
    requires i < 5
    ensures ((x ^ y) >> 25) >> i == ((x >> 25) >> i) ^ ((y >> 25) >> i)
  {
    assert (x ^ y) >> 25 == (x >> 25) ^ (y >> 25);
    ShiftXorBy(x >> 25, y >> 25, i);
  }

  lemma ShiftXorBy(x: bv32, y: bv32, i: bv32)
    requires i < 5
    ensures (x ^ y) >> i == (x >> i) ^ (y >> i)
  {
  }

  lemma LowBitXor(x: bv32, y: bv32)
    ensures (x ^ y) & 1 != 0 <==> (x & 1 != 0) != (y & 1 != 0)
  {
  }

  lemma LowLinear(x: bv32, y: bv32)
    ensures Low(Xor(x, y)) == Xor(Low(x), Low(y))
  {
  }

  // One step is linear over GF(2).
  lemma StepLinear(x: bv32, y: bv32)
    ensures Step(Xor(x, y)) == Xor(Step(x), Step(y))
  {
    hide Xor, Tap, Low;
    LowLinear(x, y);
    TapLinear(x, y, 0, 0x3b6a57b2);
    TapLinear(x, y, 1, 0x26508e6d);
    TapLinear(x, y, 2, 0x1ea119fa);
    TapLinear(x, y, 3, 0x3d4233dd);
    TapLinear(x, y, 4, 0x2a1462b3);
    var a, a' := Low(x), Low(y);
    var b, b' := Tap(x, 0, 0x3b6a57b2), Tap(y, 0, 0x3b6a57b2);
    var c, c' := Tap(x, 1, 0x26508e6d), Tap(y, 1, 0x26508e6d);
    var d, d' := Tap(x, 2, 0x1ea119fa), Tap(y, 2, 0x1ea119fa);
    var e, e' := Tap(x, 3, 0x3d4233dd), Tap(y, 3, 0x3d4233dd);
    XorSwap(a, a', b, b');
    XorSwap(Xor(a, b), Xor(a', b'), c, c');
    XorSwap(Xor(Xor(a, b), c), Xor(Xor(a', b'), c'), d, d');
    XorSwap(Xor(Xor(Xor(a, b), c), d), Xor(Xor(Xor(a', b'), c'), d'), e, e');
    XorSwap(Xor(Xor(Xor(Xor(a, b), c), d), e), Xor(Xor(Xor(Xor(a', b'), c'), d'), e'),
            Tap(x, 4, 0x2a1462b3), Tap(y, 4, 0x2a1462b3));
  }

  lemma StepBound(x: bv32)
    requires x < LIMIT
    ensures Step(x) < LIMIT
  {
  }

  // The five generators have independent low bits, so no state is lost.
  lemma StepKernel(x: bv32)
    requires x < LIMIT && Step(x) == 0
    ensures x == 0
  {
  }

  lemma StepInjective(x: bv32, y: bv32)
    requires x < LIMIT && y < LIMIT && Step(x) == Step(y)
    ensures x == y
  {
    hide Xor, Step;
    StepLinear(x, y);
    XorBound(x, y);
    XorLaws(Step(x), Step(y));
    StepKernel(Xor(x, y));
    XorLaws(x, y);
  }

  // ------------------------------------------------ runs over symbol strings

  type Symbol = x: bv32 | x < 32

  lemma SymbolBound(x: bv32, s: Symbol)
    requires x < LIMIT
    ensures Xor(x, s) < LIMIT
  {
  }

  function Run(chk: bv32, s: seq<Symbol>): bv32 {
    if s == [] then chk else Xor(Step(Run(chk, s[..|s| - 1])), s[|s| - 1])
  }

  lemma RunSnoc(chk: bv32, s: seq<Symbol>, d: Symbol)
    ensures Run(chk, s + [d]) == Xor(Step(Run(chk, s)), d)
  {
    assert (s + [d])[..|s|] == s;
  }

  lemma {:induction false} RunConcat(chk: bv32, s: seq<Symbol>, t: seq<Symbol>)
    ensures Run(chk, s + t) == Run(Run(chk, s), t)
  {
    if t == [] {
      assert s + t == s;
    } else {
      var k := |t| - 1;
      assert s + t == (s + t[..k]) + [t[k]] && t == t[..k] + [t[k]];
      RunSnoc(chk, s + t[..k], t[k]);
      RunConcat(chk, s, t[..k]);
    }
  }

  lemma {:induction false} RunBound(chk: bv32, s: seq<Symbol>)
    requires chk < LIMIT
    ensures Run(chk, s) < LIMIT
  {
    hide Xor, Step;
    if s != [] {
      RunBound(chk, s[..|s| - 1]);
      StepBound(Run(chk, s[..|s| - 1]));
      SymbolBound(Step(Run(chk, s[..|s| - 1])), s[|s| - 1]);
    }
  }

  // Feeding the same symbols never merges two states.
  lemma {:induction false} RunInjective(x: bv32, y: bv32, s: seq<Symbol>)
    requires x < LIMIT && y < LIMIT && Run(x, s) == Run(y, s)
    ensures x == y
  {
    hide Xor, Step;
    if s != [] {
      var t, d := s[..|s| - 1], s[|s| - 1];
      XorLaws(Step(Run(x, t)), d);
      XorLaws(Step(Run(y, t)), d);
      RunBound(x, t);
      RunBound(y, t);
      StepInjective(Run(x, t), Run(y, t));
      RunInjective(x, y, t);
    }
  }

  function Nulls(n: nat): seq<Symbol> {
    seq(n, _ => 0)
  }

  // A run is what the state contributes xor what the symbols contribute.
  lemma {:induction false} RunSplit(c: bv32, s: seq<Symbol>)
    ensures Run(c, s) == Xor(Run(c, Nulls(|s|)), Run(0, s))
  {
    hide Xor, Step;
    if s == [] {
      XorLaws(c, 0);
    } else {
      var t, d := s[..|s| - 1], s[|s| - 1];
      var x, y := Run(c, Nulls(|t|)), Run(0, t);
      assert Nulls(|s|) == Nulls(|t|) + [0];
      RunSnoc(c, Nulls(|t|), 0);
      RunSplit(c, t);
      StepLinear(x, y);
      XorSwap(Step(x), Step(y), 0, d);
      XorLaws(d, 0);
    }
  }

  // ------------------------------------------------------ six symbols a word

  // (c >> ((5 - i) * 5)) & 0x1f for i below 6: the symbols the checksum is
  // written as.
  function Extract(c: bv32): (s: seq<Symbol>)
    ensures |s| == 6
  {
    [(c >> 25) & 31, (c >> 20) & 31, (c >> 15) & 31, (c >> 10) & 31, (c >> 5) & 31, c & 31]
  }

  function Push(c: bv32, s: bv32): bv32 {
    (c << 5) ^ s
  }

  // The first k symbols as one word.
  function Packed(s: seq<Symbol>, k: nat): bv32
    requires 0 < k <= |s|
  {
    if k == 1 then s[0] else Push(Packed(s, k - 1), s[k - 1])
  }

  function Limit(k: nat): bv32
    requires 0 < k <= 6
  {
    if k == 1 then 32 else if k == 2 then 0x400 else if k == 3 then 0x8000
    else if k == 4 then 0x10_0000 else if k == 5 then 0x200_0000 else LIMIT
  }

  // While the register has room a step is a plain shift.
  lemma PlainShift(x: bv32)
    requires x < 0x200_0000
    ensures Step(x) == x << 5
  {
    hide Xor, Tap, TopBit;
    NoTopBit(x);
    TapBit(x, 0, 0x3b6a57b2);
    TapBit(x, 1, 0x26508e6d);
    TapBit(x, 2, 0x1ea119fa);
    TapBit(x, 3, 0x3d4233dd);
    TapBit(x, 4, 0x2a1462b3);
    XorLaws(Low(x), 0);
  }

  lemma NoTopBit(x: bv32)
    requires x < 0x200_0000
    ensures TopBit(x, 0) == TopBit(x, 1) == TopBit(x, 2) == TopBit(x, 3) == TopBit(x, 4) == 0
    ensures Low(x) == x << 5
  {
  }

  lemma PushBound(x: bv32, s: Symbol, limit: bv32)
    requires x < limit <= 0x200_0000
    ensures Push(x, s) < limit << 5
  {
  }

  lemma PushInjective(x: bv32, y: bv32, s: Symbol, t: Symbol)
    requires x < 0x200_0000 && y < 0x200_0000 && Push(x, s) == Push(y, t)
    ensures x == y && s == t
  {
  }

  lemma {:induction false} PackedBound(s: seq<Symbol>, k: nat)
    requires 0 < k <= 6 && k <= |s|
    ensures Packed(s, k) < Limit(k) && (k < 6 ==> Limit(k) <= 0x200_0000)
  {
    hide Push;
    if k > 1 {
      PackedBound(s, k - 1);
      PushBound(Packed(s, k - 1), s[k - 1], Limit(k - 1));
    }
  }

  lemma {:induction false} RunPacked(s: seq<Symbol>, k: nat)
    requires 0 < k <= 6 && k <= |s|
    ensures Run(0, s[..k]) == Packed(s, k)
  {
    hide Xor, Step, Push, Limit;
    assert s[..k] == s[..k - 1] + [s[k - 1]];
    RunSnoc(0, s[..k - 1], s[k - 1]);
    if k == 1 {
      FirstPush(s[0]);
    } else {
      RunPacked(s, k - 1);
      PackedBound(s, k - 1);
      PushStep(Packed(s, k - 1), s[k - 1]);
    }
  }

  lemma PushStep(x: bv32, s: Symbol)
    requires x < 0x200_0000
    ensures Xor(Step(x), s) == Push(x, s)
  {
    hide Step;
    PlainShift(x);
  }

  lemma FirstPush(d: Symbol)
    ensures Xor(Step(0), d) == d
  {
    hide Step;
    PlainShift(0);
  }

  lemma {:induction false} PackedInjective(s: seq<Symbol>, t: seq<Symbol>, k: nat)
    requires 0 < k <= 6 && k <= |s| == |t| && Packed(s, k) == Packed(t, k)
    ensures s[..k] == t[..k]
  {
    hide Push, Limit;
    assert s[..k] == s[..k - 1] + [s[k - 1]] && t[..k] == t[..k - 1] + [t[k - 1]];
    if k > 1 {
      PackedBound(s, k - 1);
      PackedBound(t, k - 1);
      PushInjective(Packed(s, k - 1), Packed(t, k - 1), s[k - 1], t[k - 1]);
      PackedInjective(s, t, k - 1);
    }
  }

  lemma ExtractPush(c: bv32)
    requires c < LIMIT
    ensures Push(Push(Push(Push(Push((c >> 25) & 31, (c >> 20) & 31), (c >> 15) & 31),
                                 (c >> 10) & 31), (c >> 5) & 31), c & 31) == c
  {
  }

  lemma PackExtract(c: bv32)
    requires c < LIMIT
    ensures Packed(Extract(c), 6) == c
  {
    hide Push;
    ExtractPush(c);
    var s := Extract(c);
    assert Packed(s, 2) == Push(s[0], s[1]);
    assert Packed(s, 4) == Push(Push(Packed(s, 2), s[2]), s[3]);
  }

  // Words below 2^30 and strings of six symbols are in bijection.
  lemma RunSix(s: seq<Symbol>, c: bv32)
    requires |s| == 6 && c < LIMIT
    ensures Run(0, s) < LIMIT
    ensures Run(0, s) == c <==> s == Extract(c)
  {
    hide Run, Packed, Extract;
    assert s[..6] == s && Extract(c)[..6] == Extract(c);
    RunPacked(s, 6);
    PackedBound(s, 6);
    PackExtract(c);
    if Packed(s, 6) == c { PackedInjective(s, Extract(c), 6); }
  }

  // The checksum that takes state c to k.
  function Checksum(c: bv32, k: bv32): (s: seq<Symbol>)
    ensures |s| == 6
  {
    Extract(Xor(Run(c, Nulls(6)), k))
  }

  // Six symbols end in k exactly when they are that checksum.
  lemma ChecksumIff(c: bv32, k: bv32, s: seq<Symbol>)
    requires c < LIMIT && k < LIMIT && |s| == 6
    ensures Run(c, s) == k <==> s == Checksum(c, k)
  {
    hide Xor, Step, Run, Extract;
    var w := Run(c, Nulls(6));
    RunBound(c, Nulls(6));
    XorBound(w, k);
    RunSplit(c, s);
    RunSix(s, Xor(w, k));
    XorLaws(w, k);
    XorLaws(w, Run(0, s));
  }

  // Two symbol strings of equal length that differ only inside a window of six
  // consecutive symbols never end in the same state.
  lemma BurstDetected(c: bv32, s: seq<Symbol>, t: seq<Symbol>, i: nat)
    requires c < LIMIT && |s| == |t| && i + 6 <= |s| && s != t
    requires s[..i] == t[..i] && s[i + 6..] == t[i + 6..]
    ensures Run(c, s) != Run(c, t)
  {
    hide Xor, Step, Run, Extract;
    var w := Run(c, s[..i]);
    var a, b, u := s[i..i + 6], t[i..i + 6], s[i + 6..];
    assert s == s[..i] + a + u && t == s[..i] + b + u;
    RunConcat(c, s[..i] + a, u);
    RunConcat(c, s[..i] + b, u);
    RunConcat(c, s[..i], a);
    RunConcat(c, s[..i], b);
    RunBound(c, s[..i]);
    RunBound(w, a);
    RunBound(w, b);
    if Run(c, s) == Run(c, t) {
      RunInjective(Run(w, a), Run(w, b), u);
      ChecksumIff(w, Run(w, b), a);
      ChecksumIff(w, Run(w, b), b);
    }
  }
}
