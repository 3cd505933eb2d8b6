/** Bech32 and Bech32m strings as segwit_addr.c writes and reads them. */
module Bech32 {
  import opened CStrings
  import Detection
  import opened Numbers
  import opened Polymod

  datatype Encoding = None | Bech32 | Bech32m

  // bech32_final_constant
  function Constant(enc: Encoding): (k: bv32)
    requires enc != None
    ensures k < LIMIT
  {
    if enc == Bech32 then 1 else 0x2bc830a3
  }

  // The character set qpzry9x8gf2tvdw0s3jn54khce6mua7l.
  function CharAt(d: nat): char
    requires d < 32
  {
    if d == 0 then 'q' else if d == 1 then 'p' else if d == 2 then 'z' else if d == 3 then 'r'
    else if d == 4 then 'y' else if d == 5 then '9' else if d == 6 then 'x' else if d == 7 then '8'
    else if d == 8 then 'g' else if d == 9 then 'f' else if d == 10 then '2' else if d == 11 then 't'
    else if d == 12 then 'v' else if d == 13 then 'd' else if d == 14 then 'w' else if d == 15 then '0'
    else if d == 16 then 's' else if d == 17 then '3' else if d == 18 then 'j' else if d == 19 then 'n'
    else if d == 20 then '5' else if d == 21 then '4' else if d == 22 then 'k' else if d == 23 then 'h'
    else if d == 24 then 'c' else if d == 25 then 'e' else if d == 26 then '6' else if d == 27 then 'm'
    else if d == 28 then 'u' else if d == 29 then 'a' else if d == 30 then '7' else 'l'
  }

  // The reverse table: both cases of a letter, -1 outside the set.
  function RevOf(c: char): (d: int)
    ensures -1 <= d < 32
  {
    if c == '0' then 15 else if c == '2' then 10 else if c == '3' then 17 else if c == '4' then 21
    else if c == '5' then 20 else if c == '6' then 26 else if c == '7' then 30 else if c == '8' then 7
    else if c == '9' then 5
    else if c == 'a' || c == 'A' then 29 else if c == 'c' || c == 'C' then 24
    else if c == 'd' || c == 'D' then 13 else if c == 'e' || c == 'E' then 25
    else if c == 'f' || c == 'F' then 9 else if c == 'g' || c == 'G' then 8
    else if c == 'h' || c == 'H' then 23 else if c == 'j' || c == 'J' then 18
    else if c == 'k' || c == 'K' then 22 else if c == 'l' || c == 'L' then 31
    else if c == 'm' || c == 'M' then 27 else if c == 'n' || c == 'N' then 19
    else if c == 'p' || c == 'P' then 1 else if c == 'q' || c == 'Q' then 0
    else if c == 'r' || c == 'R' then 3 else if c == 's' || c == 'S' then 16
    else if c == 't' || c == 'T' then 11 else if c == 'u' || c == 'U' then 28
    else if c == 'v' || c == 'V' then 12 else if c == 'w' || c == 'W' then 14
    else if c == 'x' || c == 'X' then 6 else if c == 'y' || c == 'Y' then 4
    else if c == 'z' || c == 'Z' then 2
    else -1
  }

  predicate IsUpper(c: char) {
    'A' <= c <= 'Z'
  }

  predicate IsLower(c: char) {
    'a' <= c <= 'z'
  }

  // (ch - 'A') + 'a' for a capital.
  function LowerChar(c: char): char {
    if IsUpper(c) then (c as int + 32) as char else c
  }

  lemma RevChar(d: nat)
    requires d < 32
    ensures RevOf(CharAt(d)) == d && CharAt(d) != '1' && !IsUpper(CharAt(d))
  {
  }

  lemma CharRev(c: char)
    requires RevOf(c) >= 0
    ensures CharAt(RevOf(c)) == LowerChar(c) && c != '1'
  {
  }

  lemma SeparatorOutside()
    ensures RevOf('1') == -1 && LowerChar('1') == '1'
  {
  }

  // ------------------------------------------------- symbols of a string

  function Sym(d: nat): Symbol
    requires d < 32
  {
    d as bv32
  }

  function Num(x: Symbol): (d: Byte)
    ensures d < 32
  {
    x as int
  }

  lemma NumSym(d: nat)
    requires d < 32
    ensures Num(Sym(d)) == d
  {
  }

  lemma SymNum(x: Symbol)
    ensures Sym(Num(x)) == x
  {
  }

  ghost predicate Fives(d: seq<Byte>) {
    forall i :: 0 <= i < |d| ==> d[i] < 32
  }

  function Syms(d: seq<Byte>): (s: seq<Symbol>)
    requires Fives(d)
    ensures |s| == |d| && forall i :: 0 <= i < |d| ==> s[i] == Sym(d[i])
  {
    seq(|d|, i requires 0 <= i < |d| => Sym(d[i]))
  }

  function Nums(s: seq<Symbol>): (d: seq<Byte>)
    ensures Fives(d) && |d| == |s| && forall i :: 0 <= i < |s| ==> d[i] == Num(s[i])
  {
    seq(|s|, i requires 0 <= i < |s| => Num(s[i]))
  }

  lemma SymsNums(s: seq<Symbol>)
    ensures Syms(Nums(s)) == s
  {
    hide Sym, Num;
    forall i | 0 <= i < |s| ensures Syms(Nums(s))[i] == s[i] { SymNum(s[i]); }
  }

  lemma SymsInjective(d: seq<Byte>, e: seq<Byte>)
    requires Fives(d) && Fives(e) && Syms(d) == Syms(e)
    ensures d == e
  {
    hide Sym, Num;
    assert |d| == |Syms(d)| == |e|;
    forall i | 0 <= i < |d| ensures d[i] == e[i] {
      NumSym(d[i]);
      NumSym(e[i]);
      assert Syms(d)[i] == Syms(e)[i];
    }
  }

  function Text(d: seq<Byte>): (t: string)
    requires Fives(d)
    ensures |t| == |d| && forall i :: 0 <= i < |d| ==> t[i] == CharAt(d[i])
  {
    seq(|d|, i requires 0 <= i < |d| => CharAt(d[i]))
  }

  // ---------------------------------------- the human-readable part expanded

  predicate Printable(c: char) {
    33 as char <= c <= 126 as char
  }

  ghost predicate AllPrintable(h: string) {
    forall i :: 0 <= i < |h| ==> Printable(h[i])
  }

  // ch >> 5 and ch & 0x1f
  function High(c: char): Symbol
    requires Printable(c)
  {
    Sym(c as int / 32)
  }

  function LowBits(c: char): Symbol {
    Sym(c as int % 32)
  }

  lemma LowerLowBits(c: char)
    ensures LowBits(LowerChar(c)) == LowBits(c)
  {
    hide Sym;
  }

  function Highs(h: string): (s: seq<Symbol>)
    requires AllPrintable(h)
    ensures |s| == |h| && forall i :: 0 <= i < |h| ==> s[i] == High(h[i])
  {
    seq(|h|, i requires 0 <= i < |h| => High(h[i]))
  }

  function Lows(h: string): (s: seq<Symbol>)
    ensures |s| == |h| && forall i :: 0 <= i < |h| ==> s[i] == LowBits(h[i])
  {
    seq(|h|, i requires 0 <= i < |h| => LowBits(h[i]))
  }

  // The state after the human-readable part.
  function Start(h: string): (c: bv32)
    requires AllPrintable(h)
    ensures c < LIMIT
  {
    RunBound(1, Highs(h) + [0] + Lows(h));
    Run(1, Highs(h) + [0] + Lows(h))
  }

  // ------------------------------------------------------ what is encoded

  ghost predicate CanEncode(h: string, d: seq<Byte>) {
    && AllPrintable(h) && (forall i :: 0 <= i < |h| ==> !IsUpper(h[i]))
    && |h| + 7 + |d| <= 90 && Fives(d)
  }

  function CheckSymbols(h: string, d: seq<Byte>, enc: Encoding): (c: seq<Byte>)
    requires AllPrintable(h) && Fives(d) && enc != None
    ensures |c| == 6 && Fives(c)
  {
    Nums(Checksum(Run(Start(h), Syms(d)), Constant(enc)))
  }

  function Encoded(h: string, d: seq<Byte>, enc: Encoding): (s: string)
    requires AllPrintable(h) && Fives(d) && enc != None
    ensures |s| == |h| + |d| + 7
  {
    h + "1" + Text(d + CheckSymbols(h, d, enc))
  }

  // ------------------------------------------------------ what is decoded

  // The last '1', or -1.
  function Separator(s: string): (p: int)
    ensures -1 <= p < |s| && (p >= 0 ==> s[p] == '1') && forall i :: p < i < |s| ==> s[i] != '1'
  {
    if s == [] then -1 else if s[|s| - 1] == '1' then |s| - 1 else Separator(s[..|s| - 1])
  }

  predicate HasUpper(s: string) {
    exists i :: 0 <= i < |s| && IsUpper(s[i])
  }

  predicate HasLower(s: string) {
    exists i :: 0 <= i < |s| && IsLower(s[i])
  }

  function Lower(s: string): (t: string)
    ensures |t| == |s| && forall i :: 0 <= i < |s| ==> t[i] == LowerChar(s[i])
  {
    seq(|s|, i requires 0 <= i < |s| => LowerChar(s[i]))
  }

  ghost predicate WellFormed(s: string) {
    && 8 <= |s| <= 90 && Separator(s) >= 1 && |s| - 1 - Separator(s) >= 6
    && AllPrintable(s[..Separator(s)])
    && InCharset(s[Separator(s) + 1..])
    && !(HasUpper(s) && HasLower(s))
  }

  function Prefix(s: string): (h: string)
    requires Separator(s) >= 0
    ensures |h| == Separator(s)
    ensures AllPrintable(s[..Separator(s)]) ==> AllPrintable(h)
  {
    Lower(s[..Separator(s)])
  }

  ghost predicate InCharset(t: string) {
    forall i :: 0 <= i < |t| ==> RevOf(t[i]) >= 0
  }

  function SymbolOf(c: char): (d: Byte)
    requires RevOf(c) >= 0
    ensures d < 32 && d == RevOf(c)
  {
    RevOf(c)
  }

  function Symbols(t: string): (d: seq<Byte>)
    requires InCharset(t)
    ensures Fives(d) && |d| == |t| && forall i :: 0 <= i < |d| ==> d[i] == RevOf(t[i])
  {
    seq(|t|, i requires 0 <= i < |t| => SymbolOf(t[i]))
  }

  // All the symbols after the separator, the checksum included.
  function Payload(s: string): (d: seq<Byte>)
    requires Separator(s) >= 0 && InCharset(s[Separator(s) + 1..])
    ensures Fives(d) && |d| == |s| - 1 - Separator(s)
  {
    Symbols(s[Separator(s) + 1..])
  }

  ghost function Data(s: string): (d: seq<Byte>)
    requires WellFormed(s)
    ensures Fives(d)
  {
    Payload(s)[..|Payload(s)| - 6]
  }

  ghost function Verdict(s: string): Encoding {
    if !WellFormed(s) then None
    else
      var r := Run(Start(Prefix(s)), Syms(Payload(s)));
      if r == Constant(Bech32) then Bech32 else if r == Constant(Bech32m) then Bech32m else None
  }

  lemma SeparatorIs(s: string, p: nat)
    requires p < |s| && s[p] == '1' && forall i :: p < i < |s| ==> s[i] != '1'
    ensures Separator(s) == p
  {
  }

  // ------------------------------------------------------------ round trips

  // What the parts of an encoded string are, whenever its human-readable part
  // is not empty.
  lemma EncodedParts(h: string, d: seq<Byte>, enc: Encoding)
    requires CanEncode(h, d) && enc != None
    ensures Separator(Encoded(h, d, enc)) == |h|
    ensures h != "" ==> WellFormed(Encoded(h, d, enc))
    ensures h != "" ==> Prefix(Encoded(h, d, enc)) == h
    ensures h != "" ==> Payload(Encoded(h, d, enc)) == d + CheckSymbols(h, d, enc)
  {
    hide CheckSymbols, RevOf, CharAt, Separator, Text, IsUpper, IsLower;
    var s, e := Encoded(h, d, enc), d + CheckSymbols(h, d, enc);
    assert s[..|h|] == h && s[|h| + 1..] == Text(e);
    TextSymbols(e);
    forall i | |h| < i < |s| ensures s[i] != '1' && !IsUpper(s[i]) {
      assert s[i] == Text(e)[i - |h| - 1];
    }
    SeparatorIs(s, |h|);
    OneIsNoLetter();
    forall i | 0 <= i < |s| ensures !IsUpper(s[i]) {
      if i < |h| { assert s[i] == h[i]; }
    }
    NoCapitals(h);
  }

  lemma OneIsNoLetter()
    ensures !IsUpper('1')
  {
  }

  lemma NoCapitals(h: string)
    requires forall i :: 0 <= i < |h| ==> !IsUpper(h[i])
    ensures Lower(h) == h
  {
  }

  lemma TextSymbols(e: seq<Byte>)
    requires Fives(e)
    ensures InCharset(Text(e)) && Symbols(Text(e)) == e
    ensures forall i :: 0 <= i < |e| ==> Text(e)[i] != '1' && !IsUpper(Text(e)[i])
  {
    hide RevOf, CharAt, IsUpper;
    forall i | 0 <= i < |e| ensures RevOf(Text(e)[i]) == e[i] && Text(e)[i] != '1' && !IsUpper(Text(e)[i]) {
      RevChar(e[i]);
    }
  }

  // The string verifies under the encoding it was made for, and under no
  // other, exactly when its human-readable part is not empty.
  lemma EncodedVerdict(h: string, d: seq<Byte>, enc: Encoding)
    requires CanEncode(h, d) && enc != None
    ensures Verdict(Encoded(h, d, enc)) == if h == "" then None else enc
  {
    hide Run, Start, Checksum, Encoded, WellFormed, Prefix, Payload, Separator, CheckSymbols, RevOf;
    EncodedParts(h, d, enc);
    if h != "" {
      CheckRun(h, d, enc);
      ConstantsDiffer();
    } else {
      EmptyPrefix(Encoded(h, d, enc));
    }
  }

  lemma EmptyPrefix(s: string)
    requires Separator(s) == 0
    ensures !WellFormed(s)
  {
  }

  lemma ConstantsDiffer()
    ensures Constant(Bech32) != Constant(Bech32m)
  {
  }

  lemma CheckRun(h: string, d: seq<Byte>, enc: Encoding)
    requires AllPrintable(h) && Fives(d) && enc != None
    ensures Run(Start(h), Syms(d + CheckSymbols(h, d, enc))) == Constant(enc)
  {
    hide Run, Start, Checksum, Constant;
    var c := Run(Start(h), Syms(d));
    var t := Checksum(c, Constant(enc));
    SymsNums(t);
    assert Syms(d + Nums(t)) == Syms(d) + t;
    RunConcat(Start(h), Syms(d), t);
    RunBound(Start(h), Syms(d));
    ChecksumIff(c, Constant(enc), t);
  }

  // A well-formed string is accepted under an encoding exactly when it is, up
  // to letter case, what encoding its own parts gives.
  lemma AcceptedIff(s: string, enc: Encoding)
    requires WellFormed(s) && enc != None
    ensures CanEncode(Prefix(s), Data(s))
    ensures Verdict(s) == enc <==> Encoded(Prefix(s), Data(s), enc) == Lower(s)
  {
    hide Run, Start, Checksum, Constant, Separator, CheckSymbols, Text, Payload, Verdict, InCharset, AllPrintable,
         HasUpper, HasLower, Sym, Num, Syms, Symbols, High;
    VerdictIff(s, enc);
    AcceptedCanEncode(s);
    var e := Payload(s);
    var n := |e| - 6;
    assert e[..n] + e[n..] == e;
    CheckSymbolsAre(Prefix(s), e[..n], e[n..], enc);
    LowerText(s);
    SameText(Prefix(s), e, e[..n] + CheckSymbols(Prefix(s), e[..n], enc));
  }

  lemma SameText(h: string, d: seq<Byte>, e: seq<Byte>)
    requires Fives(d) && Fives(e) && |d| == |e|
    ensures h + "1" + Text(d) == h + "1" + Text(e) <==> d == e
  {
    hide Text, RevOf, CharAt;
    TextSymbols(d);
    TextSymbols(e);
    assert (h + "1" + Text(d))[|h| + 1..] == Text(d);
    assert (h + "1" + Text(e))[|h| + 1..] == Text(e);
  }

  lemma VerdictIff(s: string, enc: Encoding)
    requires WellFormed(s) && enc != None
    ensures Verdict(s) == enc <==> Run(Start(Prefix(s)), Syms(Payload(s))) == Constant(enc)
  {
    hide Run, Start, Constant, WellFormed, Payload, Prefix, Separator, InCharset, AllPrintable;
    ConstantsDiffer();
  }

  lemma AcceptedCanEncode(s: string)
    requires WellFormed(s)
    ensures CanEncode(Prefix(s), Data(s))
  {
    hide Separator, Payload, RevOf;
    LowerNotUpper(s[..Separator(s)]);
  }

  lemma CheckSymbolsAre(h: string, d: seq<Byte>, t: seq<Byte>, enc: Encoding)
    requires AllPrintable(h) && Fives(d + t) && Fives(d) && Fives(t) && |t| == 6 && enc != None
    ensures Run(Start(h), Syms(d + t)) == Constant(enc) <==> d + t == d + CheckSymbols(h, d, enc)
  {
    hide Run, Start, Checksum, Constant, Printable;
    assert Syms(d + t) == Syms(d) + Syms(t);
    RunConcat(Start(h), Syms(d), Syms(t));
    RunBound(Start(h), Syms(d));
    ChecksumIff(Run(Start(h), Syms(d)), Constant(enc), Syms(t));
    var c := CheckSymbols(h, d, enc);
    SymsNums(Checksum(Run(Start(h), Syms(d)), Constant(enc)));
    assert (d + t)[|d|..] == t && (d + c)[|d|..] == c;
    if Syms(t) == Syms(c) { SymsInjective(t, c); }
  }

  lemma LowerNotUpper(s: string)
    ensures forall i :: 0 <= i < |s| ==> !IsUpper(Lower(s)[i])
  {
  }

  lemma LowerText(s: string)
    requires Separator(s) >= 0 && InCharset(s[Separator(s) + 1..])
    ensures Lower(s) == Prefix(s) + "1" + Text(Payload(s))
  {
    hide RevOf, CharAt, Separator, LowerChar, Text, Lower, Symbols, AllPrintable, InCharset;
    var p := Separator(s);
    LowerSymbols(s[p + 1..]);
    assert s == s[..p] + ['1'] + s[p + 1..];
    LowerConcat(s[..p], s[p + 1..]);
  }

  lemma LowerConcat(s: string, t: string)
    ensures Lower(s + "1" + t) == Lower(s) + "1" + Lower(t)
  {
    SeparatorOutside();
  }

  lemma LowerSymbols(t: string)
    requires InCharset(t)
    ensures Lower(t) == Text(Symbols(t))
  {
    hide RevOf, CharAt, LowerChar;
    forall i | 0 <= i < |t| ensures LowerChar(t[i]) == CharAt(Symbols(t)[i]) { CharRev(t[i]); }
  }

  // Same human-readable part and as many symbols, and all that differs is
  // among the six symbols from i on.
  ghost predicate BurstApart(s: string, t: string, i: nat)
    requires WellFormed(s) && WellFormed(t)
  {
    var d, e := Payload(s), Payload(t);
    && Prefix(s) == Prefix(t) && |d| == |e| && d != e
    && i + 6 <= |d| && d[..i] == e[..i] && d[i + 6..] == e[i + 6..]
  }

  // Strings with the same human-readable part and as many symbols, whose
  // symbols differ only inside a window of six, never both verify under the
  // same encoding; in particular no single wrong symbol goes unnoticed.
  lemma BurstRejected(s: string, t: string, i: nat)
    requires WellFormed(s) && WellFormed(t) && BurstApart(s, t, i)
    ensures Verdict(s) == None || Verdict(s) != Verdict(t)
  {
    hide Run, Start, Constant, Payload, Prefix, Separator, Verdict, AllPrintable, InCharset, HasUpper, HasLower, Sym,
         Num, Syms, Symbols, High;
    if Verdict(s) == Verdict(t) && Verdict(s) != None {
      VerdictIff(s, Verdict(s));
      VerdictIff(t, Verdict(s));
      SymsBurst(Start(Prefix(s)), Payload(s), Payload(t), i);
    }
  }

  lemma SymsBurst(c: bv32, d: seq<Byte>, e: seq<Byte>, i: nat)
    requires c < LIMIT && Fives(d) && Fives(e) && |d| == |e| && d != e
    requires i + 6 <= |d| && d[..i] == e[..i] && d[i + 6..] == e[i + 6..]
    ensures Run(c, Syms(d)) != Run(c, Syms(e))
  {
    hide Run, Sym;
    var a, b := Syms(d), Syms(e);
    if a == b { SymsInjective(d, e); }
    forall k | 0 <= k < |d| && !(i <= k < i + 6) ensures d[k] == e[k] {
      if k < i { assert d[k] == d[..i][k]; } else { assert d[k] == d[i + 6..][k - i - 6]; }
    }
    BurstDetected(c, a, b, i);
  }

  // Same human-readable part and as many symbols, and at most the symbols at
  // i, j and l differ.
  ghost predicate ThreeApart(s: string, t: string, i: nat, j: nat, l: nat)
    requires WellFormed(s) && WellFormed(t)
  {
    var d, e := Payload(s), Payload(t);
    Prefix(s) == Prefix(t) && d != e && i < j < l < |d| && Detection.AgreeBut(d, e, i, j, l)
  }

  // Up to three wrong symbols never go unnoticed, wherever they are.
  lemma ThreeRejected(s: string, t: string, i: nat, j: nat, l: nat)
    requires WellFormed(s) && WellFormed(t) && ThreeApart(s, t, i, j, l)
    ensures Verdict(s) == None || Verdict(s) != Verdict(t)
  {
    hide Run, Start, Constant, Payload, Prefix, Separator, Verdict, AllPrintable, InCharset, HasUpper, HasLower, Sym,
         Num, Syms, Symbols, High;
    if Verdict(s) == Verdict(t) && Verdict(s) != None {
      VerdictIff(s, Verdict(s));
      VerdictIff(t, Verdict(s));
      SymsThree(Start(Prefix(s)), Payload(s), Payload(t), i, j, l);
    }
  }

  lemma SymsThree(c: bv32, d: seq<Byte>, e: seq<Byte>, i: nat, j: nat, l: nat)
    requires c < LIMIT && Fives(d) && Fives(e) && |d| < 1023 && d != e
    requires i < j < l < |d| && Detection.AgreeBut(d, e, i, j, l)
    ensures Run(c, Syms(d)) != Run(c, Syms(e))
  {
    hide Run, Sym;
    if Syms(d) == Syms(e) { SymsInjective(d, e); }
    Detection.ThreeDetected(c, Syms(d), Syms(e), i, j, l);
  }

  // ----------------------------------------------------------------- encode

  ghost predicate EncodablePrefix(h: string) {
    AllPrintable(h) && forall i :: 0 <= i < |h| ==> !IsUpper(h[i])
  }

  // The high bits of the human-readable part, up to its NUL.
  method ScanPrefix(hrp: array<char>) returns (ok: bool, n: nat, chk: bv32)
    requires NUL in hrp[..]
    ensures ok <==> EncodablePrefix(UpToNul(hrp[..]))
    ensures ok ==> n < hrp.Length && hrp[n] == NUL && UpToNul(hrp[..]) == hrp[..n] && chk == Run(1, Highs(hrp[..n]))
  {
    hide Step, Xor, Run, High, UpToNul;
    ghost var h := UpToNul(hrp[..]);
    chk := 1;
    n := 0;
    RunNone(1);
    UpToNulIs(hrp[..]);
    while hrp[n] != NUL
      invariant n <= |h| < hrp.Length && h == hrp[..|h|] && hrp[|h|] == NUL
      invariant forall i :: 0 <= i < |h| ==> h[i] != NUL
      invariant EncodablePrefix(hrp[..n])
      invariant chk == Run(1, Highs(hrp[..n]))
      decreases hrp.Length - n
    {
      var ch := hrp[n];
      assert h[n] == ch;
      if ch < 33 as char || ch > 126 as char {
        return false, n, chk;
      }
      if 'A' <= ch <= 'Z' {
        return false, n, chk;
      }
      assert Highs(hrp[..n + 1]) == Highs(hrp[..n]) + [High(ch)];
      RunSnoc(1, Highs(hrp[..n]), High(ch));
      chk := Xor(Step(chk), High(ch));
      n := n + 1;
    }
    ok := true;
  }

  lemma RunNone(c: bv32)
    ensures Run(c, []) == c
  {
  }

  lemma RunNull(c: bv32, s: seq<Symbol>)
    ensures Run(c, s + [0]) == Step(Run(c, s))
  {
    hide Step, Xor;
    RunSnoc(c, s, 0);
    XorLaws(Step(Run(c, s)), 0);
  }

  // Copies the human-readable part and feeds its low bits.
  method CopyPrefix(output: array<char>, hrp: array<char>, n: nat, c: bv32) returns (chk: bv32)
    requires output != hrp && n <= hrp.Length && n <= output.Length
    modifies output
    ensures chk == Run(c, Lows(hrp[..n]))
    ensures output[..n] == hrp[..n] && output[n..] == old(output[n..])
  {
    hide Step, Xor, Run, LowBits;
    chk := c;
    var i := 0;
    RunNone(c);
    while i < n
      invariant 0 <= i <= n && chk == Run(c, Lows(hrp[..i]))
      invariant output[..i] == hrp[..i] && output[i..] == old(output[i..])
    {
      assert Lows(hrp[..i + 1]) == Lows(hrp[..i]) + [LowBits(hrp[i])];
      RunSnoc(c, Lows(hrp[..i]), LowBits(hrp[i]));
      chk := Xor(Step(chk), LowBits(hrp[i]));
      output[i] := hrp[i];
      i := i + 1;
    }
  }

  // The human-readable part and the separator.
  method PutPrefix(output: array<char>, hrp: array<char>, n: nat, c: bv32) returns (chk: bv32)
    requires output != hrp && n <= hrp.Length && n < output.Length
    modifies output
    ensures chk == Run(c, Lows(hrp[..n]))
    ensures output[..n + 1] == hrp[..n] + "1" && output[n + 1..] == old(output[n + 1..])
  {
    hide Run, Lows;
    chk := CopyPrefix(output, hrp, n, c);
    ghost var rest := output[n..];
    output[n] := '1';
    assert output[n + 1..] == rest[1..] == old(output[n..])[1..];
  }

  // Writes the data symbols from position pos on and feeds them.
  method PutData(output: array<char>, pos: nat, data: array<Byte>, n: nat, c: bv32) returns (ok: bool, chk: bv32)
    requires n <= data.Length && pos + n <= output.Length
    modifies output
    ensures ok <==> Fives(data[..n])
    ensures ok ==> chk == Run(c, Syms(data[..n]))
    ensures ok ==> output[..] == Splice(old(output[..]), pos, Text(data[..n]))
  {
    hide Step, Xor, Run, Sym, CharAt;
    chk := c;
    var i := 0;
    RunNone(c);
    while i < n
      invariant 0 <= i <= n && Fives(data[..i]) && chk == Run(c, Syms(data[..i]))
      invariant forall k :: 0 <= k < output.Length && !(pos <= k < pos + i) ==> output[k] == old(output[k])
      invariant forall k :: 0 <= k < i ==> output[pos + k] == CharAt(data[..i][k])
    {
      if data[i] / 32 != 0 {
        assert data[..n][i] >= 32;
        return false, chk;
      }
      assert data[..i + 1] == data[..i] + [data[i]];
      assert Syms(data[..i + 1]) == Syms(data[..i]) + [Sym(data[i])];
      RunSnoc(c, Syms(data[..i]), Sym(data[i]));
      chk := Xor(Step(chk), Sym(data[i]));
      output[pos + i] := CharAt(data[i]);
      i := i + 1;
    }
    ok := true;
    SpliceText(output[..], old(output[..]), pos, data[..n]);
  }

  lemma SpliceText(now: string, before: string, pos: nat, d: seq<Byte>)
    requires Fives(d) && |now| == |before| && pos + |d| <= |now|
    requires forall k :: 0 <= k < |now| && !(pos <= k < pos + |d|) ==> now[k] == before[k]
    requires forall k :: 0 <= k < |d| ==> now[pos + k] == CharAt(d[k])
    ensures now == Splice(before, pos, Text(d))
  {
    hide CharAt;
    forall k | pos <= k < pos + |d| ensures now[k] == Text(d)[k - pos] { assert now[pos + (k - pos)] == now[k]; }
  }

  function CheckText(c: bv32, enc: Encoding): (t: string)
    requires enc != None
    ensures |t| == 6
  {
    Text(Nums(Checksum(c, Constant(enc))))
  }

  // Feeds six null symbols and writes the six symbols that lead to the final
  // constant.
  method PutCheck(output: array<char>, pos: nat, c: bv32, enc: Encoding)
    requires pos + 6 <= output.Length && enc != None
    modifies output
    ensures output[..] == Splice(old(output[..]), pos, CheckText(c, enc))
  {
    hide Extract, Num, CharAt, Step, Xor, Run, Constant;
    var chk := c;
    RunNone(c);
    assert Nulls(0) == [];
    for i := 0 to 6
      invariant chk == Run(c, Nulls(i)) && output[..] == old(output[..])
    {
      RunNull(c, Nulls(i));
      assert Nulls(i + 1) == Nulls(i) + [0];
      chk := Step(chk);
    }
    chk := Xor(chk, Constant(enc));
    ghost var d := Nums(Extract(chk));
    for i := 0 to 6
      invariant forall k :: 0 <= k < output.Length && !(pos <= k < pos + i) ==> output[k] == old(output[k])
      invariant forall k :: 0 <= k < i ==> output[pos + k] == CharAt(d[k])
    {
      output[pos + i] := CharAt(Num(Extract(chk)[i]));
    }
    SpliceText(output[..], old(output[..]), pos, d);
  }

  // The data symbols, the checksum and the final NUL.
  method PutBody(output: array<char>, pos: nat, data: array<Byte>, n: nat, c: bv32, enc: Encoding) returns (ok: bool)
    requires n <= data.Length && pos + n + 7 <= output.Length && enc != None
    modifies output
    ensures ok <==> Fives(data[..n])
    ensures ok ==>
              output[..] == Splice(old(output[..]), pos,
                                   Text(data[..n]) + (CheckText(Run(c, Syms(data[..n])), enc) + [NUL]))
  {
    hide Run, CharAt, Sym, Text, CheckText, Syms, Splice;
    var chk;
    ok, chk := PutData(output, pos, data, n, c);
    if !ok {
      return false;
    }
    PutCheck(output, pos + n, chk, enc);
    SpliceTwice(old(output[..]), pos, Text(data[..n]), CheckText(chk, enc));
    output[pos + n + 6] := NUL;
    SpliceEnd(output[..], old(output[..]), pos, Text(data[..n]), CheckText(chk, enc));
  }

  function Splice(s: string, pos: nat, t: string): (r: string)
    requires pos + |t| <= |s|
    ensures |r| == |s|
  {
    s[..pos] + t + s[pos + |t|..]
  }

  lemma SpliceTwice(s: string, pos: nat, t: string, u: string)
    requires pos + |t| + |u| <= |s|
    ensures Splice(Splice(s, pos, t), pos + |t|, u) == Splice(s, pos, t + u)
  {
    var r := Splice(s, pos, t);
    assert r[..pos + |t|] == s[..pos] + t;
    assert r[pos + |t| + |u|..] == s[pos + |t| + |u|..];
  }

  lemma SpliceEnd(now: string, s: string, pos: nat, t: string, u: string)
    requires pos + |t| + |u| < |s|
    requires now == Splice(s, pos, t + u)[pos + |t| + |u| := NUL]
    ensures now == Splice(s, pos, t + (u + [NUL]))
  {
  }

  lemma StartIs(h: string)
    requires AllPrintable(h)
    ensures Start(h) == Run(Step(Run(1, Highs(h))), Lows(h))
  {
    hide Step, Xor, Run, High, LowBits;
    RunNull(1, Highs(h));
    RunConcat(1, Highs(h) + [0], Lows(h));
  }

  lemma EncodedIs(h: string, d: seq<Byte>, enc: Encoding)
    requires AllPrintable(h) && Fives(d) && enc != None
    ensures var c := Run(Start(h), Syms(d));
            Encoded(h, d, enc) == h + "1" + Text(d) + CheckText(c, enc)
  {
    hide Run, Start, Checksum, Constant, Sym, Num, CharAt;
    var c := CheckSymbols(h, d, enc);
    assert Text(d + c) == Text(d) + Text(c);
  }

  lemma CanEncodeParts(h: string, d: seq<Byte>)
    ensures CanEncode(h, d) <==> EncodablePrefix(h) && |h| + 7 + |d| <= 90 && Fives(d)
    ensures EncodablePrefix(h) ==> AllPrintable(h)
  {
  }

  lemma SplicedAfter(mid: string, before: string, first: string, t: string)
    requires |mid| == |before| && |first| + |t| <= |mid|
    requires mid[..|first|] == first && mid[|first|..] == before[|first|..]
    ensures Splice(mid, |first|, t) == first + t + before[|first| + |t|..]
  {
    assert mid[|first| + |t|..] == mid[|first|..][|t|..] == before[|first|..][|t|..];
  }

  method Encode(output: array<char>, hrp: array<char>, data: array<Byte>, dataLen: nat, enc: Encoding)
    returns (ok: bool)
    requires NUL in hrp[..] && output != hrp && dataLen <= data.Length && enc != None
    requires |UpToNul(hrp[..])| + dataLen + 8 <= output.Length
    modifies output
    ensures ok <==> CanEncode(UpToNul(hrp[..]), data[..dataLen])
    ensures ok ==> output[..] == Encoded(UpToNul(hrp[..]), data[..dataLen], enc) + [NUL]
                                 + old(output[|UpToNul(hrp[..])| + dataLen + 8..])
  {
    hide Step, Xor, Run, Constant, Start, UpToNul, Checksum, CheckText, Splice, CharAt, Sym, Num, High, LowBits,
         Text, Nums,
         Syms, Highs, Lows, Encoded, AllPrintable, CanEncode, EncodablePrefix, Fives;
    CanEncodeParts(UpToNul(hrp[..]), data[..dataLen]);
    ghost var h, d, before := UpToNul(hrp[..]), data[..dataLen], output[..];
    var n, chk;
    ok, n, chk := ScanPrefix(hrp);
    if !ok {
      return false;
    }
    if n + 7 + dataLen > 90 {
      return false;
    }
    chk := PutPrefix(output, hrp, n, Step(chk));
    StartIs(h);
    ghost var mid := output[..];
    ok := PutBody(output, n + 1, data, dataLen, chk, enc);
    if !ok {
      return false;
    }
    EncodedIs(h, d, enc);
    SplicedAfter(mid, before, h + "1", Text(d) + (CheckText(Run(Start(h), Syms(d)), enc) + [NUL]));
    return true;
  }

  // ----------------------------------------------------------------- decode

  // Reads and lower-cases the human-readable part, feeding its high bits.
  method ReadPrefix(hrp: array<char>, input: array<char>, n: nat)
    returns (ok: bool, chk: bv32, lower: bool, upper: bool)
    requires hrp != input && n < hrp.Length && n <= input.Length
    modifies hrp
    ensures ok <==> AllPrintable(input[..n])
    ensures ok ==> AllPrintable(Lower(input[..n]))
    ensures ok ==> hrp[..n + 1] == Lower(input[..n]) + [NUL] && chk == Run(1, Highs(Lower(input[..n])))
    ensures ok ==> lower == HasLower(input[..n]) && upper == HasUpper(input[..n])
  {
    hide Step, Xor, Run, High, LowerChar;
    chk, lower, upper := 1, false, false;
    RunNone(1);
    var i := 0;
    while i < n
      invariant 0 <= i <= n && AllPrintable(input[..i]) && AllPrintable(Lower(input[..i]))
      invariant hrp[..i] == Lower(input[..i]) && chk == Run(1, Highs(Lower(input[..i])))
      invariant lower == HasLower(input[..i]) && upper == HasUpper(input[..i])
    {
      var ch := input[i];
      assert ch == input[..n][i];
      if ch < 33 as char || ch > 126 as char {
        return false, chk, lower, upper;
      }
      Flags(input[..i], ch);
      PrintableLower(ch);
      assert input[..i + 1] == input[..i] + [ch];
      ghost var h := Lower(input[..i]);
      assert Lower(input[..i + 1]) == h + [LowerChar(ch)];
      if 'a' <= ch <= 'z' {
        lower := true;
      } else if 'A' <= ch <= 'Z' {
        upper := true;
        ch := (ch as int - 'A' as int + 'a' as int) as char;
      }
      assert Highs(h + [ch]) == Highs(h) + [High(ch)];
      RunSnoc(1, Highs(h), High(ch));
      hrp[i] := ch;
      chk := Xor(Step(chk), High(ch));
      i := i + 1;
    }
    hrp[i] := NUL;
    ok := true;
  }

  lemma Flags(s: string, c: char)
    ensures HasLower(s + [c]) == (HasLower(s) || IsLower(c))
    ensures HasUpper(s + [c]) == (HasUpper(s) || IsUpper(c))
  {
    assert (s + [c])[|s|] == c;
    assert forall i :: 0 <= i < |s| ==> (s + [c])[i] == s[i];
  }

  lemma PrintableLower(c: char)
    requires Printable(c)
    ensures Printable(LowerChar(c))
    ensures LowerChar(c) == if IsUpper(c) then (c as int - 'A' as int + 'a' as int) as char else c
  {
  }

  // Feeds the low bits of the human-readable part, whatever its case.
  method FeedLows(input: array<char>, n: nat, c: bv32) returns (chk: bv32)
    requires n <= input.Length
    ensures chk == Run(c, Lows(Lower(input[..n])))
  {
    hide Step, Xor, Run, LowBits, LowerChar;
    chk := c;
    RunNone(c);
    var i := 0;
    while i < n
      invariant 0 <= i <= n && chk == Run(c, Lows(Lower(input[..i])))
    {
      ghost var s := Lows(Lower(input[..i]));
      LowerLowBits(input[i]);
      assert Lows(Lower(input[..i + 1])) == s + [LowBits(LowerChar(input[i]))];
      RunSnoc(c, s, LowBits(input[i]));
      chk := Xor(Step(chk), LowBits(input[i]));
      i := i + 1;
    }
  }

  // Reads the symbols from start on, keeping all but the last six.
  method ReadSymbols(data: array<Byte>, input: array<char>, start: nat, end: nat, c: bv32, l: bool, u: bool)
    returns (ok: bool, chk: bv32, lower: bool, upper: bool)
    requires start + 6 <= end <= input.Length && end - start - 6 <= data.Length
    modifies data
    ensures ok <==> InCharset(input[start..end])
    ensures ok ==> chk == Run(c, Syms(Symbols(input[start..end])))
    ensures ok ==> lower == (l || HasLower(input[start..end])) && upper == (u || HasUpper(input[start..end]))
    ensures ok ==> data[..end - start - 6] == Symbols(input[start..end])[..end - start - 6]
  {
    hide Step, Xor, Run, Sym, RevOf;
    chk, lower, upper := c, l, u;
    RunNone(c);
    var i := start;
    ghost var t := input[start..end];
    while i < end
      invariant start <= i <= end && InCharset(t[..i - start])
      invariant chk == Run(c, Syms(Symbols(t[..i - start])))
      invariant lower == (l || HasLower(t[..i - start])) && upper == (u || HasUpper(t[..i - start]))
      invariant forall k :: 0 <= k < i - start && k < end - start - 6 ==> data[k] == RevOf(t[k])
    {
      HighBit(input[i]);
      var v := if (input[i] as int / 128) % 2 == 1 then -1 else RevOf(input[i]);
      if 'a' <= input[i] <= 'z' {
        lower := true;
      }
      if 'A' <= input[i] <= 'Z' {
        upper := true;
      }
      if v == -1 {
        assert t[i - start] == input[i];
        return false, chk, lower, upper;
      }
      ghost var before := t[..i - start];
      assert t[..i + 1 - start] == before + [input[i]];
      Flags(before, input[i]);
      assert Syms(Symbols(before + [input[i]])) == Syms(Symbols(before)) + [Sym(v)];
      RunSnoc(c, Syms(Symbols(before)), Sym(v));
      chk := Xor(Step(chk), Sym(v));
      if i + 6 < end {
        data[i - start] := v;
      }
      i := i + 1;
    }
    assert t[..i - start] == t;
    ok := true;
  }

  lemma HighBit(c: char)
    ensures (c as int / 128) % 2 == 1 ==> RevOf(c) == -1
  {
  }

  // How many characters follow the last '1'.
  method CountSymbols(input: array<char>, n: nat) returns (count: nat)
    requires n <= input.Length
    ensures Separator(input[..n]) == n - 1 - count
  {
    count := 0;
    while count < n && input[n - 1 - count] != '1'
      invariant 0 <= count <= n && forall i :: n - count <= i < n ==> input[i] != '1'
    {
      count := count + 1;
    }
    if count < n {
      SeparatorIs(input[..n], n - 1 - count);
    }
  }

  method Decode(hrp: array<char>, data: array<Byte>, input: array<char>) returns (enc: Encoding, dataLen: nat)
    requires NUL in input[..] && hrp != input
    requires |UpToNul(input[..])| <= 90 ==> |UpToNul(input[..])| <= hrp.Length + 6
                                            && |UpToNul(input[..])| <= data.Length + 8
    modifies hrp, data
    ensures enc != None ==> WellFormed(UpToNul(input[..]))
    ensures enc != None ==> Holds(hrp[..], Prefix(UpToNul(input[..])))
    ensures enc != None ==> dataLen <= data.Length && data[..dataLen] == Data(UpToNul(input[..]))
    ensures enc == Verdict(UpToNul(input[..]))
  {
    hide Step, Xor, Run, Constant, Start, Verdict, Separator, WellFormed, HasLower, HasUpper, AllPrintable,
         InCharset, Sym, RevOf,
         UpToNul, Lower, Highs, Lows, Syms, Symbols;
    dataLen := 0;
    var inputLen := Length(input);
    ghost var s := UpToNul(input[..]);
    assert s == input[..inputLen];
    Rejected(s);
    if inputLen < 8 || inputLen > 90 {
      return None, dataLen;
    }
    dataLen := CountSymbols(input, inputLen);
    var hrpLen := inputLen - (1 + dataLen);
    if 1 + dataLen >= inputLen || dataLen < 6 {
      return None, dataLen;
    }
    dataLen := dataLen - 6;
    assert s[..hrpLen] == input[..hrpLen] && s[hrpLen + 1..] == input[hrpLen + 1..inputLen];
    var ok, chk, lower, upper := ReadPrefix(hrp, input, hrpLen);
    if !ok {
      return None, dataLen;
    }
    chk := FeedLows(input, hrpLen, Step(chk));
    StartIs(Lower(s[..hrpLen]));
    ghost var h := hrp[..];
    ok, chk, lower, upper := ReadSymbols(data, input, hrpLen + 1, inputLen, chk, lower, upper);
    if !ok {
      return None, dataLen;
    }
    CaseFlags(s, hrpLen);
    if lower && upper {
      return None, dataLen;
    }
    AcceptedParts(s, hrpLen);
    if chk == Constant(Bech32) {
      return Bech32, dataLen;
    } else if chk == Constant(Bech32m) {
      return Bech32m, dataLen;
    } else {
      return None, dataLen;
    }
  }

  // A buffer that starts with a NUL-terminated string.
  ghost predicate Holds(mem: seq<char>, s: string) {
    |s| < |mem| && mem[..|s|] == s && mem[|s|] == NUL
  }

  // Each reason to reject on its own.
  lemma Rejected(s: string)
    ensures |s| < 8 || |s| > 90 ==> Verdict(s) == None
    ensures Separator(s) < 1 || |s| - 1 - Separator(s) < 6 ==> Verdict(s) == None
    ensures Separator(s) >= 0 && !AllPrintable(s[..Separator(s)]) ==> Verdict(s) == None
    ensures Separator(s) >= 0 && !InCharset(s[Separator(s) + 1..]) ==> Verdict(s) == None
    ensures HasUpper(s) && HasLower(s) ==> Verdict(s) == None
  {
    hide Run, Start, Constant, Separator;
  }

  lemma CaseFlags(s: string, p: nat)
    requires p == Separator(s)
    ensures HasLower(s) == (HasLower(s[..p]) || HasLower(s[p + 1..]))
    ensures HasUpper(s) == (HasUpper(s[..p]) || HasUpper(s[p + 1..]))
  {
    hide Separator;
    forall i | 0 <= i < |s|
      ensures s[i] == if i < p then s[..p][i] else if i == p then '1' else s[p + 1..][i - p - 1]
    {}
  }

  lemma AcceptedParts(s: string, p: nat)
    requires p == Separator(s) && 8 <= |s| <= 90 && 1 <= p && |s| - 1 - p >= 6
    requires AllPrintable(s[..p]) && InCharset(s[p + 1..]) && !(HasUpper(s) && HasLower(s))
    ensures WellFormed(s) && Prefix(s) == Lower(s[..p]) && Payload(s) == Symbols(s[p + 1..])
    ensures |Data(s)| == |s| - 7 - p && Data(s) == Symbols(s[p + 1..])[..|s| - 7 - p]
    ensures var r := Run(Start(Prefix(s)), Syms(Symbols(s[p + 1..])));
            Verdict(s) == if r == Constant(Bech32) then Bech32 else if r == Constant(Bech32m) then Bech32m else None
  {
    hide Run, Start, Constant, Separator, AllPrintable, InCharset, HasUpper, HasLower, Syms;
  }
}
