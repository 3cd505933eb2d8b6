/** Segwit addresses in plain terms: which checksum goes with which version,
    exactly which strings are accepted, and a known answer. */
module AddressLaws {
  import opened Address
  import opened Bech32
  import opened Bech32Laws
  import opened BitGroups
  import opened Detection
  import opened Numbers
  import opened Polymod
  import opened Radix

  // Version 0 is written in Bech32, versions 1 to 16 in Bech32m.
  lemma EncodingByVersion(h: string, version: int, program: seq<Byte>)
    requires Address.CanEncode(h, version, program) && h != "" && version >= 0
    ensures Verdict(Address.Encoded(h, version, program)) == Encoding.Bech32 <==> version == 0
    ensures Verdict(Address.Encoded(h, version, program)) == Bech32m <==> 1 <= version <= 16
  {
    hide Verdict, Address.Encoded, Bech32.CanEncode;
    EncodedData(h, version, program);
  }

  // And read that way.
  lemma AcceptedByVersion(h: string, s: string)
    requires Accepts(h, s)
    ensures Verdict(s) == Encoding.Bech32 <==> Data(s)[0] == 0
    ensures Verdict(s) == Bech32m <==> 1 <= Data(s)[0] <= 16
  {
    hide Verdict, WellFormed, Data;
  }

  // The sizes of programs, and the versions the encoder takes.
  lemma CanEncodeIs(h: string, version: int, program: seq<Byte>)
    ensures Address.CanEncode(h, version, program) <==>
              && version <= 16 && version % 256 < 32
              && 2 <= |program| <= 40 && (version == 0 ==> |program| == 20 || |program| == 32)
              && Bech32.CanEncode(h, [version % 256] + ToFives(program))
    ensures |ToFives(program)| == (8 * |program| + 4) / 5
  {
    hide ToFives;
    PaddedSize(program);
    assert Address.Payload(version, program) == [version % 256] + ToFives(program);
    if Bech32.CanEncode(h, [version % 256] + ToFives(program)) {
      assert ([version % 256] + ToFives(program))[0] < 32;
    }
  }

  ghost predicate MixedCase(s: string) {
    (exists i :: 0 <= i < |s| && 'A' <= s[i] <= 'Z') && (exists i :: 0 <= i < |s| && 'a' <= s[i] <= 'z')
  }

  // s is, but for letter case, the address of this version and program.
  ghost predicate IsAddress(h: string, s: string, version: int, program: seq<Byte>) {
    && 0 <= version <= 16 && 2 <= |program| <= 40 && (version == 0 ==> |program| == 20 || |program| == 32)
    && Encodes(s, h, [version] + ToFives(program), if version == 0 then Encoding.Bech32 else Bech32m)
  }

  // Exactly the addresses are accepted, written in one case.
  lemma AcceptsExactly(h: string, s: string)
    ensures Accepts(h, s) <==> !MixedCase(s) && exists version, program :: IsAddress(h, s, version, program)
  {
    hide Verdict, Encodes, ToFives;
    if Accepts(h, s) {
      AcceptedIsAddress(h, s);
    }
    forall version, program | IsAddress(h, s, version, program) && !MixedCase(s) ensures Accepts(h, s) {
      AddressIsAccepted(h, s, version, program);
    }
  }

  lemma AcceptedIsAddress(h: string, s: string)
    requires Accepts(h, s)
    ensures !MixedCase(s) && IsAddress(h, s, Data(s)[0], Address.ToBytes(Data(s)[1..]))
  {
    hide Verdict, Data, WellFormed, ToFives, Bech32.CanEncode, Bech32.Encoded, Prefix, CutIsPadding, Address.ToBytes;
    var version, program := Data(s)[0], Address.ToBytes(Data(s)[1..]);
    AcceptedReencodes(h, s);
    assert Address.Payload(version, program) == [version] + ToFives(program);
    PrefixSomething(s);
  }

  lemma AddressIsAccepted(h: string, s: string, version: int, program: seq<Byte>)
    requires IsAddress(h, s, version, program) && !MixedCase(s)
    ensures Accepts(h, s) && Data(s)[0] == version && Address.ToBytes(Data(s)[1..]) == program
  {
    hide Verdict, Bech32.CanEncode, Bech32.Encoded, Lower, WellFormed, ToFives, CutIsPadding, Cut, Data, Prefix, Human,
         Body;
    var d, enc := [version] + ToFives(program), if version == 0 then Encoding.Bech32 else Bech32m;
    AcceptedExactly(s, enc);
    CaseIs(s);
    EncodesReads(s, h, d, enc);
    DataIsBody(s);
    PaddedSize(program);
    FivesBack(program);
    assert d[1..] == ToFives(program);
  }

  lemma CaseIs(s: string)
    ensures MixedCase(s) <==> HasUpper(s) && HasLower(s)
  {
  }

  lemma DataIsBody(s: string)
    requires WellFormed(s)
    ensures Human(s) == Prefix(s) && |Body(s)| >= 6 && Data(s) == Body(s)[..|Body(s)| - 6]
  {
  }

  lemma FivesBack(program: seq<Byte>)
    ensures CutIsPadding(ToFives(program), 5, 8) && Address.ToBytes(ToFives(program)) == program
  {
    hide CutIsPadding, Cut, Padded;
    CutPadded(program);
  }

  // ------------------------------------------------------------- known answer

  lemma LettersOfBc()
    ensures AllPrintable("bc") && High('b') == High('c') == 3 && LowBits('b') == 2 && LowBits('c') == 3
  {
  }

  lemma StartOfBc()
    ensures AllPrintable("bc") && Start("bc") == 0x2318043
  {
    hide Step, Run;
    LettersOfBc();
    StepsOfBc();
    var e: seq<Symbol> := [];
    var f := (e + [3]) + [3];
    assert Highs("bc") + [0] + Lows("bc") == ((f + [0]) + [2]) + [3];
    NoSymbols(1);
    RunSnoc(1, e, 3);
    RunSnoc(1, e + [3], 3);
    RunSnoc(1, f, 0);
    RunSnoc(1, f + [0], 2);
    RunSnoc(1, (f + [0]) + [2], 3);
  }

  lemma StepsOfBc()
    ensures Xor(Step(0x1), 3) == 0x23 && Xor(Step(0x23), 3) == 0x463
    ensures Xor(Step(0x463), 0) == 0x8C60 && Xor(Step(0x8C60), 2) == 0x118C02
    ensures Xor(Step(0x118C02), 3) == 0x2318043
  {
  }

  lemma StepsOfData()
    ensures Xor(Step(0x2318043), 16) == 0x3D5A5FC2 && Xor(Step(0x3D5A5FC2), 14) == 0x4EC3EB7
    ensures Xor(Step(0x4EC3EB7), 20) == 0x3BD75899 && Xor(Step(0x3BD75899), 15) == 0x8760C09
    ensures Xor(Step(0x8760C09), 0) == 0x106098DA
  {
  }

  lemma RunOfData()
    ensures Run(0x2318043, [16, 14, 20, 15, 0]) == 0x106098DA
  {
    hide Step, Run;
    StepsOfData();
    var c: bv32 := 0x2318043;
    var e: seq<Symbol> := [];
    var f := (e + [16]) + [14];
    assert [16, 14, 20, 15, 0] == ((f + [20]) + [15]) + [0];
    NoSymbols(c);
    RunSnoc(c, e, 16);
    RunSnoc(c, e + [16], 14);
    RunSnoc(c, f, 20);
    RunSnoc(c, f + [20], 15);
    RunSnoc(c, (f + [20]) + [15], 0);
  }

  lemma ZerosAfterData()
    ensures Run(0x106098DA, Nulls(6)) == 0x3B191A31
  {
    hide Step, Run;
    RunNulls(0x106098DA, 6);
    MoreSteps();
  }

  lemma MoreSteps()
    ensures Steps(6, 0x106098DA) == 0x3B191A31
  {
    assert Steps(1, 0x106098DA) == 0x3151289D;
    assert Steps(2, 0x106098DA) == 0x3D7342CE;
    assert Steps(3, 0x106098DA) == 0x1CF9F39;
    assert Steps(4, 0x106098DA) == 0x39F3E720;
    assert Steps(5, 0x106098DA) == 0x378BAC94;
    assert Steps(6, 0x106098DA) == 0x3B191A31;
  }

  lemma ChecksumOfData()
    ensures Extract(Xor(0x3B191A31, 0x2bc830a3)) == [8, 13, 2, 10, 20, 18]
  {
  }

  lemma SymbolsOfData()
    ensures Fives([16, 14, 20, 15, 0]) && Syms([16, 14, 20, 15, 0]) == [16, 14, 20, 15, 0]
    ensures Nums([8, 13, 2, 10, 20, 18]) == [8, 13, 2, 10, 20, 18]
  {
  }

  lemma TextOfData()
    ensures Fives([16, 14, 20, 15, 0, 8, 13, 2, 10, 20, 18])
    ensures Text([16, 14, 20, 15, 0, 8, 13, 2, 10, 20, 18]) == "sw50qgdz25j"
  {
  }

  lemma ProgramInFives()
    ensures ToFives([0x75, 0x1E]) == [14, 20, 15, 0]
  {
    var b: seq<nat> := [0x75, 0x1E];
    assert Value(b, 256) == 0x751E by {
      ValueSnoc([], 0x75, 256);
      ValueSnoc([0x75], 0x1E, 256);
      assert [] + [0x75] == [0x75] && [0x75] + [0x1E] == b;
    }
    assert Two(4) == 16 && Two(5) == 32;
    FixedFour(0x751E * 16);
  }

  lemma FixedFour(v: nat)
    ensures v / 32 >= 0 && v / 32 / 32 >= 0 && v / 32 / 32 / 32 >= 0
    ensures Fixed(v, 32, 4) == [v / 32 / 32 / 32 % 32, v / 32 / 32 % 32, v / 32 % 32, v % 32]
  {
    assert Fixed(v / 32 / 32 / 32, 32, 1) == [v / 32 / 32 / 32 % 32];
    assert Fixed(v / 32 / 32, 32, 2) == [v / 32 / 32 / 32 % 32, v / 32 / 32 % 32];
    assert Fixed(v / 32, 32, 3) == [v / 32 / 32 / 32 % 32, v / 32 / 32 % 32, v / 32 % 32];
  }

  lemma CheckOfData()
    ensures AllPrintable("bc") && Fives([16, 14, 20, 15, 0])
    ensures CheckSymbols("bc", [16, 14, 20, 15, 0], Bech32m) == [8, 13, 2, 10, 20, 18]
  {
    hide Run, Start, Extract, Xor;
    StartOfBc();
    RunOfData();
    ZerosAfterData();
    ChecksumOfData();
    OneIsConstant();
    SymbolsOfData();
  }

  // The shortest valid address BIP 350 lists: version 16 and two bytes.
  lemma KnownAddress()
    ensures Address.CanEncode("bc", 16, [0x75, 0x1E])
    ensures Address.Encoded("bc", 16, [0x75, 0x1E]) == "bc1sw50qgdz25j"
  {
    hide ToFives, Text, CheckSymbols;
    ProgramInFives();
    CheckOfData();
    TextOfData();
    assert Address.Payload(16, [0x75, 0x1E]) == [16, 14, 20, 15, 0];
    assert [16, 14, 20, 15, 0] + [8, 13, 2, 10, 20, 18] == [16, 14, 20, 15, 0, 8, 13, 2, 10, 20, 18];
  }
}
