/** Segwit addresses: a witness version and program as a Bech32 string. */
module Address {
  import opened Bech32
  import opened BitGroups
  import opened CStrings
  import opened Numbers
  import opened Polymod
  import opened Radix

  function ToFives(b: seq<Byte>): (s: seq<Byte>)
    ensures Fives(s)
  {
    CutPadded(b);
    assert forall i :: 0 <= i < |Padded(b, 8, 5)| ==> Padded(b, 8, 5)[i] < 32;
    Padded(b, 8, 5)
  }

  function ToBytes(s: seq<Byte>): seq<Byte> {
    CutDigits(s);
    Cut(s, 5, 8)
  }

  lemma CutDigits(s: seq<nat>)
    ensures forall i :: 0 <= i < |Cut(s, 5, 8)| ==> Cut(s, 5, 8)[i] < 256
  {
    hide Value, Fixed, Two;
    RoundDown(|s| * 5, 8);
    var r := |s| * 5 - |s| * 5 / 8 * 8;
    QuotientIsNat(Value(s, Two(5)), Two(r));
    PowersOfTwo(0, 0);
    FixedDigits(Value(s, Two(5)) / Two(r), Two(8), |s| * 5 / 8);
  }

  function EncodingFor(version: int): (e: Encoding)
    ensures e != None
  {
    if version > 0 then Bech32m else Encoding.Bech32
  }

  predicate ProgramSize(version: int, n: nat) {
    2 <= n <= 40 && (version == 0 ==> n == 20 || n == 32)
  }

  // The version is stored into an unsigned byte.
  function Payload(version: int, program: seq<Byte>): (d: seq<Byte>)
    ensures |d| > 0 && d[0] == version % 256 && d[1..] == ToFives(program)
  {
    [version % 256] + ToFives(program)
  }

  ghost predicate CanEncode(h: string, version: int, program: seq<Byte>) {
    version <= 16 && ProgramSize(version, |program|) && Bech32.CanEncode(h, Payload(version, program))
  }

  ghost function Encoded(h: string, version: int, program: seq<Byte>): string
    requires CanEncode(h, version, program)
  {
    Bech32.Encoded(h, Payload(version, program), EncodingFor(version))
  }

  lemma ProgramFits(n: nat)
    requires n <= 40
    ensures (n * 8 + 5 - 1) / 5 <= 64
  {
  }

  lemma PaddedSize(program: seq<Byte>)
    ensures |ToFives(program)| == (|program| * 8 + 5 - 1) / 5
  {
  }

  method Encode(output: array<char>, hrp: array<char>, witver: int, witprog: array<Byte>, length: nat)
    returns (ok: bool)
    requires NUL in hrp[..] && output != hrp && length <= witprog.Length
    requires |UpToNul(hrp[..])| + 73 <= output.Length
    modifies output
    ensures ok <==> CanEncode(UpToNul(hrp[..]), witver, witprog[..length])
    ensures ok ==> var a := Encoded(UpToNul(hrp[..]), witver, witprog[..length]);
                   |a| < output.Length && output[..] == a + [NUL] + old(output[..])[|a| + 1..]
  {
    hide Run, Start, Padded, UpToNul, Bech32.CanEncode, Bech32.Encoded, AllPrintable;
    var data := new Byte[65](_ => 0);
    ghost var h, program := UpToNul(hrp[..]), witprog[..length];
    UpToNulIs(hrp[..]);
    if witver > 16 {
      return false;
    }
    if witver == 0 && length != 20 && length != 32 {
      return false;
    }
    if length < 2 || length > 40 {
      return false;
    }
    var enc := Encoding.Bech32;
    if witver > 0 {
      enc := Bech32m;
    }
    data[0] := witver % 256;
    ProgramFits(length);
    PowersOfTwo(0, 0);
    var good, datalen := ConvertBits(data, 1, 5, witprog, 0, length, 8, true);
    assert witprog[0..length] == program;
    PaddedSize(program);
    datalen := datalen + 1;
    assert data[1..datalen] == ToFives(program);
    assert data[..datalen] == Payload(witver, program);
    ok := Bech32.Encode(output, hrp, data, datalen, enc);
  }

  // ---------------------------------------------------------------- reading

  // strncmp(a, b, n) == 0 for a b shorter than n.
  method SameString(a: array<char>, b: array<char>, n: nat) returns (same: bool)
    requires NUL in a[..] && NUL in b[..] && |UpToNul(b[..])| < n
    ensures same <==> UpToNul(a[..]) == UpToNul(b[..])
  {
    hide UpToNul;
    var i := 0;
    UpToNulIs(a[..]);
    UpToNulIs(b[..]);
    ghost var s, t := UpToNul(a[..]), UpToNul(b[..]);
    while i < n && a[i] == b[i] && a[i] != NUL
      invariant i <= |s| && i <= |t| && forall k :: 0 <= k < i ==> s[k] == t[k]
      decreases a.Length - i
    {
      assert i < |s| && i < |t|;
      i := i + 1;
    }
    same := i == n || a[i] == b[i];
    if !same && i < |s| && i < |t| { assert s[i] != t[i]; }
  }

  ghost predicate Accepts(h: string, s: string) {
    var enc := Verdict(s);
    && enc != None && WellFormed(s) && Prefix(s) == h && 0 < |Data(s)| <= 65
    && Data(s)[0] <= 16 && enc == EncodingFor(Data(s)[0])
    && CutIsPadding(Data(s)[1..], 5, 8) && ProgramSize(Data(s)[0], |ToBytes(Data(s)[1..])|)
  }

  method Decode(witdata: array<Byte>, hrp: array<char>, addr: array<char>) returns (ok: bool, witver: nat, length: nat)
    requires NUL in hrp[..] && NUL in addr[..] && witdata.Length >= 40
    modifies witdata
    ensures ok <==> Accepts(UpToNul(hrp[..]), UpToNul(addr[..]))
    ensures ok ==> length <= witdata.Length && witver == Data(UpToNul(addr[..]))[0]
    ensures ok ==> witdata[..length] == ToBytes(Data(UpToNul(addr[..]))[1..])
  {
    hide Run, Start, Verdict, WellFormed, Prefix, Data, UpToNul, Cut, CutIsPadding;
    var data := new Byte[84](_ => 0);
    var hrpActual := new char[84](_ => NUL);
    witver, length := 0, 0;
    UpToNulIs(addr[..]);
    ghost var h, s := UpToNul(hrp[..]), UpToNul(addr[..]);
    var enc, dataLen := Bech32.Decode(hrpActual, data, addr);
    if enc == None {
      return false, witver, length;
    }
    ghost var d := Data(s);
    if dataLen == 0 || dataLen > 65 {
      return false, witver, length;
    }
    HeldString(hrpActual[..], Prefix(s), s);
    var same := SameString(hrp, hrpActual, 84);
    if !same {
      return false, witver, length;
    }
    if data[0] > 16 {
      return false, witver, length;
    }
    if data[0] == 0 && enc != Encoding.Bech32 {
      return false, witver, length;
    }
    if data[0] > 0 && enc != Bech32m {
      return false, witver, length;
    }
    var good;
    assert data[1..dataLen] == d[1..];
    PowersOfTwo(0, 0);
    good, length := ConvertBits(witdata, 0, 8, data, 1, dataLen - 1, 5, false);
    if !good {
      return false, witver, length;
    }
    if length < 2 || length > 40 {
      return false, witver, length;
    }
    if data[0] == 0 && length != 20 && length != 32 {
      return false, witver, length;
    }
    witver := data[0];
    return true, witver, length;
  }

  lemma HeldString(mem: seq<char>, h: string, s: string)
    requires Holds(mem, h) && WellFormed(s) && h == Prefix(s)
    ensures NUL in mem && UpToNul(mem) == h && |h| < 84
  {
    hide UpToNul;
    forall i | 0 <= i < |h| ensures mem[i] != NUL { assert Printable(h[i]); }
    NulAt(mem, |h|);
  }

  // ------------------------------------------------------------ round trips

  lemma EncodedData(h: string, version: int, program: seq<Byte>)
    requires CanEncode(h, version, program) && h != ""
    ensures var a := Encoded(h, version, program);
            WellFormed(a) && Verdict(a) == EncodingFor(version) && Prefix(a) == h
                      && Data(a) == Payload(version, program)
  {
    hide Run, Start, Verdict, WellFormed, Prefix, Bech32.Payload, Bech32.Encoded, ToFives, AllPrintable;
    var d, enc := Payload(version, program), EncodingFor(version);
    EncodedParts(h, d, enc);
    EncodedVerdict(h, d, enc);
    DropCheck(d, CheckSymbols(h, d, enc));
  }

  lemma DropCheck(d: seq<Byte>, c: seq<Byte>)
    requires |c| == 6
    ensures (d + c)[..|d + c| - 6] == d
  {
  }

  // Decoding gives back the version and the program exactly when the
  // human-readable part is not empty and the version is not negative. A
  // negative version is accepted when its low byte is a symbol: -256 is
  // written as version 0.
  lemma RoundTripIff(h: string, version: int, program: seq<Byte>)
    requires CanEncode(h, version, program)
    ensures (var a := Encoded(h, version, program);
             Accepts(h, a) && Data(a)[0] == version && ToBytes(Data(a)[1..]) == program) <==> h != "" && version >= 0
  {
    hide Run, Start, Verdict, WellFormed, Prefix, Data, Bech32.Encoded, Bech32.CanEncode, Cut, CutIsPadding, Padded,
         AllPrintable;
    if h == "" {
      EncodedVerdict(h, Payload(version, program), EncodingFor(version));
    } else {
      EncodedData(h, version, program);
      CutPadded(program);
      ProgramFits(|program|);
      SizeOfPadded(program);
    }
  }

  lemma SizeOfPadded(program: seq<Byte>)
    ensures |Padded(program, 8, 5)| == (|program| * 8 + 5 - 1) / 5
  {
    hide Value, Fixed;
  }

  // Only the low byte of the version is written. The scripting interface passes
  // versions from 0 to 16 only, so this is for callers of the C function.
  lemma NegativeVersionWraps(h: string, program: seq<Byte>)
    requires CanEncode(h, 0, program) && h != ""
    ensures CanEncode(h, -256, program) && Accepts(h, Encoded(h, -256, program))
    ensures Data(Encoded(h, -256, program))[0] == 0
  {
    hide Run, Start, Verdict, WellFormed, Prefix, Data, Bech32.Encoded, Bech32.CanEncode, Cut, CutIsPadding, Padded,
         AllPrintable;
    assert Payload(-256, program) == Payload(0, program);
    RoundTripIff(h, 0, program);
  }

  // An accepted address is, in lower case, what its own version and program
  // are encoded as.
  lemma AcceptedReencodes(h: string, s: string)
    requires Accepts(h, s)
    ensures var d := Data(s); var version, program := d[0], ToBytes(d[1..]);
            CanEncode(h, version, program) && Encoded(h, version, program) == Lower(s)
  {
    hide Run, Start, Verdict, WellFormed, Prefix, Data, Bech32.Encoded, Bech32.CanEncode, Cut, CutIsPadding, Padded,
         AllPrintable;
    var d := Data(s);
    AcceptedIff(s, Verdict(s));
    DataIsFives(s);
    PaddedCut(d[1..]);
    assert Payload(d[0], ToBytes(d[1..])) == d;
  }

  lemma DataIsFives(s: string)
    requires WellFormed(s)
    ensures Digits(Data(s), 32)
  {
    hide Data;
    assert Fives(Data(s));
  }
}
