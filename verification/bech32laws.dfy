/** What tells the two encodings apart, which strings are accepted in terms of
    their characters, and two known answers. */
module Bech32Laws {
  import opened Bech32
  import opened Detection
  import opened Field1024
  import opened Numbers
  import opened Polymod

  // ------------------------------------------- inserting q before a final p

  function Qs(k: nat): (t: string)
    ensures |t| == k && forall i :: 0 <= i < k ==> t[i] == 'q'
  {
    seq(k, _ => 'q')
  }

  lemma QAndP()
    ensures RevOf('q') == 0 && RevOf('p') == 1 && IsLower('p') && !IsUpper('q') && !IsUpper('p')
    ensures 'q' != '1' && 'p' != '1'
  {
  }

  // The two parts of a well-formed string.
  ghost function Human(s: string): (h: string)
    requires WellFormed(s)
    ensures AllPrintable(h)
  {
    Prefix(s)
  }

  ghost function Body(s: string): (d: seq<Byte>)
    requires WellFormed(s)
    ensures Fives(d)
  {
    Payload(s)
  }

  // The register after a well-formed string.
  ghost function Register(s: string): bv32
    requires WellFormed(s)
  {
    Run(Start(Human(s)), Syms(Body(s)))
  }

  lemma VerdictReads(s: string, enc: Encoding)
    requires WellFormed(s) && enc != None
    ensures Verdict(s) == enc <==> Register(s) == Constant(enc)
  {
    hide Run, Start, Constant, WellFormed, Payload, Prefix, Syms, Verdict;
    VerdictIff(s, enc);
  }

  lemma Inserted(u: string, k: nat)
    requires WellFormed(u + "p") && |u| + k + 1 <= 90
    ensures var s, t := u + "p", u + Qs(k) + "p";
            && WellFormed(t) && Human(t) == Human(s) && |Body(s)| > 0 && Body(s)[|Body(s)| - 1] == 1
            && Body(t) == Body(s)[..|Body(s)| - 1] + Zeros(k) + [1]
  {
    hide RevOf, IsUpper, IsLower, Separator;
    QAndP();
    var s, t, p := u + "p", u + Qs(k) + "p", Separator(u + "p");
    assert s[|s| - 1] == 'p' && t[|t| - 1] == 'p';
    assert s[p] == '1' && p < |u|;
    forall i | p < i < |t| ensures t[i] != '1' { if i < |u| { assert t[i] == s[i]; } }
    assert t[p] == s[p];
    SeparatorIs(t, p);
    assert t[..p] == s[..p];
    SameCase(u, k);
    var w := t[p + 1..];
    forall i | 0 <= i < |w| ensures RevOf(w[i]) >= 0 {
      if p + 1 + i < |u| { assert w[i] == s[p + 1..][i]; }
    }
    InsertedPayload(u, k, p);
  }

  function Zeros(k: nat): (d: seq<Byte>)
    ensures |d| == k && forall i :: 0 <= i < k ==> d[i] == 0
  {
    seq(k, _ => 0)
  }

  lemma SameCase(u: string, k: nat)
    requires !(HasUpper(u + "p") && HasLower(u + "p"))
    ensures !HasUpper(u + Qs(k) + "p")
  {
    QAndP();
    var s, t := u + "p", u + Qs(k) + "p";
    assert IsLower(s[|s| - 1]);
    forall i | 0 <= i < |t| ensures !IsUpper(t[i]) {
      if i < |u| { assert t[i] == s[i]; }
    }
  }

  lemma InsertedPayload(u: string, k: nat, p: nat)
    requires p < |u| && InCharset((u + "p")[p + 1..]) && InCharset((u + Qs(k) + "p")[p + 1..])
    ensures var d := Symbols((u + "p")[p + 1..]);
            && |d| > 0 && d[|d| - 1] == 1
            && Symbols((u + Qs(k) + "p")[p + 1..]) == d[..|d| - 1] + Zeros(k) + [1]
  {
    hide RevOf;
    QAndP();
    var v := u[p + 1..];
    assert (u + "p")[p + 1..] == v + "p" && (u + Qs(k) + "p")[p + 1..] == v + Qs(k) + "p";
  }

  // The register over the symbols before the last one, then zeros, then 1.
  lemma RunInserted(c: bv32, d: seq<Byte>, k: nat)
    requires Fives(d)
    ensures Fives(d + Zeros(k) + [1])
    ensures Run(c, Syms(d + Zeros(k) + [1])) == Xor(Step(Steps(k, Run(c, Syms(d)))), 1)
  {
    hide Step, Xor, Run, Steps;
    var s := Syms(d);
    OneSym();
    assert Syms(d + Zeros(k) + [1]) == (s + Nulls(k)) + [1];
    RunSnoc(c, s + Nulls(k), 1);
    RunConcat(c, s, Nulls(k));
    RunNulls(Run(c, s), k);
  }

  lemma OneSym()
    ensures Sym(1) == 1 && Sym(0) == 0
  {
  }

  lemma {:induction false} RunNulls(x: bv32, k: nat)
    ensures Run(x, Nulls(k)) == Steps(k, x)
  {
    hide Step, Xor;
    if k > 0 {
      RunNulls(x, k - 1);
      assert Nulls(k) == Nulls(k - 1) + [0];
      RunSnoc(x, Nulls(k - 1), 0);
      XorLaws(Step(Steps(k - 1, x)), 0);
    }
  }

  lemma {:induction false} ZeroSteps(k: nat)
    ensures Steps(k, 0) == 0
  {
    if k > 0 { ZeroSteps(k - 1); }
  }

  // The state before the last symbol, and what inserting k zeros makes of it.
  lemma InsertedRun(u: string, k: nat) returns (w: bv32)
    requires WellFormed(u + "p") && |u| + k + 1 <= 90
    ensures WellFormed(u + Qs(k) + "p") && w < LIMIT
    ensures Register(u + "p") == Xor(Step(w), 1)
    ensures Register(u + Qs(k) + "p") == Xor(Step(Steps(k, w)), 1)
  {
    hide Run, Start, Human, Body, WellFormed, Step, Xor, Steps, Syms, AllPrintable, InCharset;
    Inserted(u, k);
    var c, d := Start(Human(u + "p")), Body(u + "p");
    var e := d[..|d| - 1];
    assert Fives(e) && d == e + Zeros(0) + [1];
    RunInserted(c, e, 0);
    RunInserted(c, e, k);
    w := Run(c, Syms(e));
    RunBound(c, Syms(e));
    NoSteps(w);
  }

  lemma NoSteps(w: bv32)
    ensures Steps(0, w) == w
  {
  }

  // Bech32's known weakness: any number of q may be inserted before a final p.
  lemma InsertionKept(u: string, k: nat)
    requires Verdict(u + "p") == Encoding.Bech32 && |u| + k + 1 <= 90
    ensures Verdict(u + Qs(k) + "p") == Encoding.Bech32
  {
    hide Register, WellFormed, Step, Xor, Verdict;
    Accepted(u + "p");
    var w := InsertedRun(u, k);
    VerdictReads(u + "p", Encoding.Bech32);
    VerdictReads(u + Qs(k) + "p", Encoding.Bech32);
    OneIsConstant();
    XorLaws(Step(w), 1);
    XorLaws(1, 1);
    StepKernel(w);
    ZeroSteps(k);
    ZeroStep();
    XorLaws(1, 0);
  }

  lemma Accepted(s: string)
    requires Verdict(s) != None
    ensures WellFormed(s)
  {
  }

  lemma OneIsConstant()
    ensures Constant(Encoding.Bech32) == 1 && Constant(Bech32m) == 0x2bc830a3
  {
  }

  lemma ZeroStep()
    ensures Step(0) == 0
  {
    hide Step;
    PlainShift(0);
  }

  // Bech32m was made for that: no number of q is taken.
  lemma InsertionFound(u: string, k: nat)
    requires Verdict(u + "p") == Bech32m && 0 < k && |u| + k + 1 <= 90
    ensures Verdict(u + Qs(k) + "p") != Bech32m
  {
    hide Register, WellFormed, Step, Xor, Verdict, Steps, At;
    Accepted(u + "p");
    var w := InsertedRun(u, k);
    VerdictReads(u + "p", Bech32m);
    if Verdict(u + Qs(k) + "p") == Bech32m {
      VerdictReads(u + Qs(k) + "p", Bech32m);
      OneIsConstant();
      XorLaws(Step(w), 1);
      XorLaws(Step(Steps(k, w)), 1);
      StepsAt(25, k, w);
      StepInjective(Steps(k, w), w);
      StepAt(25, w);
      MovedConstant();
      PrefixRoom(u);
      AtBound(25, w);
      NotFixed(k, At(25, w));
      ZeroTurns();
    }
  }

  lemma PrefixRoom(u: string)
    requires WellFormed(u + "p")
    ensures |u| >= 7
  {
  }

  lemma JoinBound(r: nat, v: bv32, a: bv32)
    requires v < FIELD && a < 32
    ensures Join(r, v, a) < FIELD
  {
    hide Embed, Turns, Xor;
    TurnsBound(r, v);
    EmbedSymbol(a);
    FieldXor(Turns(r, v), Embed(a));
  }

  lemma DigitBound(x: bv32, i: bv32)
    requires i < 32
    ensures Digit(x, i) < 32
  {
  }

  lemma AtBound(r: nat, x: bv32)
    ensures At(r, x) < FIELD
  {
    hide Join, Embed, Digit;
    DigitBound(x, 25);
    DigitBound(x, 20);
    DigitBound(x, 15);
    DigitBound(x, 10);
    DigitBound(x, 5);
    DigitBound(x, 0);
    var v5 := Embed(Digit(x, 25));
    EmbedSymbol(Digit(x, 25));
    JoinBound(r, v5, Digit(x, 20));
    var v4 := Join(r, v5, Digit(x, 20));
    JoinBound(r, v4, Digit(x, 15));
    var v3 := Join(r, v4, Digit(x, 15));
    JoinBound(r, v3, Digit(x, 10));
    JoinBound(r, Join(r, v3, Digit(x, 10)), Digit(x, 5));
    JoinBound(r, Fifth(r, x), Digit(x, 0));
  }

  lemma ZeroTurns()
    ensures Turns(25, 0) == 0
  {
    TurnsBound(25, 0);
  }

  // The constant, without its last bit, does not vanish at z^25.
  lemma MovedConstant()
    ensures Xor(0x2bc830a3, 1) == 0x2bc830a2 && At(25, 0x2bc830a2) != 0
  {
    hide At;
    Reads(25, 0x2bc830a2, 0xEA, 0x1E0, 0x6D, 0x22B, 0x1D1, 0x202);
  }

  // 25 k turns, for fewer than 1023 steps, move everything but 0.
  lemma NotFixed(k: nat, v: bv32)
    requires 0 < k < 83 && v < FIELD && Turns(25 * k, v) == v
    ensures v == 0
  {
    hide Turns;
    var q, d := 25 * k / 1023, 25 * k % 1023;
    FullTurn(v);
    FixedMultiple(1023, q, v);
    TurnsAdd(q * 1023, d, v);
    ShortTurnsMove(d, v);
  }

  // ------------------------------------------------------------ known answers

  // Low five bits and the bits above them: the expansion loses nothing.
  lemma ExpansionIsWhole(c: char)
    requires Printable(c)
    ensures 32 * Num(High(c)) + Num(LowBits(c)) == c as int
  {
    hide Sym, Num;
    NumSym(c as int / 32);
    NumSym(c as int % 32);
  }

  lemma StartOfA()
    ensures AllPrintable("a") && Start("a") == 0x8C01
  {
    hide Step, Run;
    LettersOfA();
    StepsOfA();
    var e: seq<Symbol> := [];
    assert Highs("a") + [0] + Lows("a") == ((e + [3]) + [0]) + [1];
    NoSymbols(1);
    RunSnoc(1, e, 3);
    RunSnoc(1, e + [3], 0);
    RunSnoc(1, (e + [3]) + [0], 1);
  }

  lemma NoSymbols(c: bv32)
    ensures Run(c, []) == c
  {
  }

  lemma LettersOfA()
    ensures Printable('a') && High('a') == 3 && LowBits('a') == 1
  {
  }

  lemma StepsOfA()
    ensures Xor(Step(1), 3) == 0x23 && Xor(Step(0x23), 0) == 0x460 && Xor(Step(0x460), 1) == 0x8C01
  {
  }

  lemma ZerosAfterA()
    ensures Run(0x8C01, Nulls(6)) == 0x15CCFE9E
  {
    hide Step, Run;
    RunNulls(0x8C01, 6);
    MoreStepsOfA();
  }

  lemma MoreStepsOfA()
    ensures Steps(6, 0x8C01) == 0x15CCFE9E
  {
    assert Steps(1, 0x8C01) == 0x118020;
    assert Steps(2, 0x8C01) == 0x2300400;
    assert Steps(3, 0x8C01) == 0x3D6AD7B2;
    assert Steps(4, 0x8C01) == 0x2FD30B9;
    assert Steps(5, 0x8C01) == 0x24CC4092;
    assert Steps(6, 0x8C01) == 0x15CCFE9E;
  }

  lemma ChecksumsOfA()
    ensures Extract(Xor(0x15CCFE9E, 1)) == [10, 28, 25, 31, 20, 31]
    ensures Extract(Xor(0x15CCFE9E, 0x2bc830a3)) == [31, 0, 9, 19, 17, 29]
  {
  }

  // The shortest strings with the prefix a, as BIP 173 and BIP 350 list them.
  lemma KnownAnswers()
    ensures AllPrintable("a") && Fives([])
    ensures Encoded("a", [], Encoding.Bech32) == "a12uel5l"
    ensures Encoded("a", [], Bech32m) == "a1lqfn3a"
  {
    hide Run, Start, Extract, Xor, CharAt;
    StartOfA();
    ZerosAfterA();
    ChecksumsOfA();
    OneIsConstant();
    NoSymbols(Start("a"));
    assert Syms([]) == [];
    KnownText();
    KnownTextM();
  }

  lemma KnownText()
    ensures Nums([10, 28, 25, 31, 20, 31]) == [10, 28, 25, 31, 20, 31]
    ensures Fives([10, 28, 25, 31, 20, 31]) && Text([10, 28, 25, 31, 20, 31]) == "2uel5l"
  {
  }

  lemma KnownTextM()
    ensures Nums([31, 0, 9, 19, 17, 29]) == [31, 0, 9, 19, 17, 29]
    ensures Fives([31, 0, 9, 19, 17, 29]) && Text([31, 0, 9, 19, 17, 29]) == "lqfn3a"
  {
  }

  // The character set, by BIP 173.
  lemma CharacterSet(d: nat)
    requires d < 32
    ensures CharAt(d) == "qpzry9x8gf2tvdw0s3jn54khce6mua7l"[d]
  {
  }

  // -------------------------------------------- acceptance by the characters

  // What can be encoded: printable ASCII without capitals, 5-bit symbols, 90
  // characters in all.
  lemma CanEncodeIs(h: string, d: seq<Byte>)
    ensures CanEncode(h, d) <==>
              && (forall i :: 0 <= i < |h| ==> 33 <= h[i] as int <= 126 && !('A' <= h[i] <= 'Z'))
              && (forall i :: 0 <= i < |d| ==> d[i] < 32) && |h| + 1 + |d| + 6 <= 90
  {
  }

  // s is, but for letter case, the encoding of d under a non-empty h.
  ghost predicate Encodes(s: string, h: string, d: seq<Byte>, enc: Encoding)
    requires enc != None
  {
    h != "" && CanEncode(h, d) && Encoded(h, d, enc) == Lower(s)
  }

  // Accepted is exactly what some data encode to, in capitals or in small
  // letters throughout.
  lemma AcceptedExactly(s: string, enc: Encoding)
    requires enc != None
    ensures Verdict(s) == enc <==>
              && !((exists i :: 0 <= i < |s| && 'A' <= s[i] <= 'Z') && (exists i :: 0 <= i < |s| && 'a' <= s[i] <= 'z'))
              && exists h, d :: Encodes(s, h, d, enc)
  {
    hide Verdict, Encoded, CanEncode, Separator, Run, InCharset, AllPrintable, Payload;
    if Verdict(s) == enc {
      Accepted(s);
      AcceptedIff(s, enc);
      PrefixSomething(s);
      assert Encodes(s, Prefix(s), Data(s), enc);
    }
    forall h, d | Encodes(s, h, d, enc) && !(HasUpper(s) && HasLower(s)) ensures Verdict(s) == enc {
      EncodesReads(s, h, d, enc);
      AcceptedIff(s, enc);
    }
  }

  lemma EncodesReads(s: string, h: string, d: seq<Byte>, enc: Encoding)
    requires enc != None && Encodes(s, h, d, enc) && !(HasUpper(s) && HasLower(s))
    ensures WellFormed(s) && Human(s) == h && |Body(s)| >= 6 && Body(s)[..|Body(s)| - 6] == d
  {
    hide Encoded, CanEncode, WellFormed, CheckSymbols, Human, Body, HasUpper, HasLower, Lower;
    EncodedReads(h, d, enc);
    LowerReads(s);
  }

  lemma EncodedReads(h: string, d: seq<Byte>, enc: Encoding)
    requires enc != None && h != "" && CanEncode(h, d)
    ensures var s := Encoded(h, d, enc);
            WellFormed(s) && Human(s) == h && |Body(s)| >= 6 && Body(s)[..|Body(s)| - 6] == d
  {
    hide Encoded, WellFormed, CheckSymbols, Separator, RevOf;
    EncodedParts(h, d, enc);
    DropChecksum(d, CheckSymbols(h, d, enc));
  }

  lemma PrefixSomething(s: string)
    requires WellFormed(s)
    ensures Prefix(s) != "" && !(HasUpper(s) && HasLower(s))
  {
  }

  lemma DropChecksum(d: seq<Byte>, c: seq<Byte>)
    requires |c| == 6
    ensures |d + c| >= 6 && (d + c)[..|d + c| - 6] == d
  {
  }

  // Letter case does not matter to the parts.
  lemma LowerReads(s: string)
    requires WellFormed(Lower(s)) && !(HasUpper(s) && HasLower(s))
    ensures WellFormed(s) && Human(s) == Human(Lower(s)) && Body(s) == Body(Lower(s))
  {
    hide RevOf, LowerChar, HasUpper, HasLower, Printable;
    var l := Lower(s);
    var p := Separator(l);
    forall i | 0 <= i < |s| ensures s[i] == '1' <==> l[i] == '1' { LowerOne(s[i]); }
    SeparatorIs(s, p);
    forall i | 0 <= i < p ensures Printable(s[..p][i]) && LowerChar(l[i]) == LowerChar(s[i]) {
      assert l[..p][i] == l[i];
      LowerPrintable(s[i]);
    }
    LowerTwice(s, p);
    var t, u := s[p + 1..], l[p + 1..];
    forall i | 0 <= i < |t| ensures RevOf(t[i]) == RevOf(u[i]) { LowerRev(t[i]); }
  }

  lemma LowerTwice(s: string, p: nat)
    requires p <= |s|
    ensures Lower(Lower(s)[..p]) == Lower(s[..p])
  {
    forall i | 0 <= i < p ensures LowerChar(LowerChar(s[i])) == LowerChar(s[i]) {}
  }

  lemma LowerOne(c: char)
    ensures c == '1' <==> LowerChar(c) == '1'
  {
  }

  lemma LowerPrintable(c: char)
    requires Printable(LowerChar(c))
    ensures Printable(c) && LowerChar(LowerChar(c)) == LowerChar(c)
  {
  }

  lemma LowerRev(c: char)
    ensures RevOf(LowerChar(c)) == RevOf(c)
  {
  }
}
