/** BIP-39 mnemonic phrases, after encoding.c. */
module Bip39 {
  import opened Bits
  import opened CStrings
  import opened Numbers
  import opened Octets
  import opened Radix

  // SHA-256 is any function to 32 bytes.
  type Digest = s: seq<Byte> | |s| == 32 witness seq(32, _ => 0)

  const WORD_BITS := 11

  // ------------------------------------------------------------ single bits

  // The i-th of n digits.
  lemma {:induction false} FixedDigit(v: nat, b: nat, n: nat, i: nat)
    requires b > 0 && i < n
    ensures Pow(b, n - 1 - i) > 0 && v / Pow(b, n - 1 - i) >= 0
    ensures Fixed(v, b, n)[i] == (v / Pow(b, n - 1 - i)) % b
    decreases n
  {
    hide Pow;
    PowPositive(b, n - 1 - i);
    QuotientIsNat(v, Pow(b, n - 1 - i));
    QuotientIsNat(v, b);
    if i == n - 1 {
      NoPower(b, v);
    } else {
      FixedDigit(v / b, b, n - 1, i);
      PowStep(b, n - 2 - i);
      PowPositive(b, n - 2 - i);
      DivDiv(v, b, Pow(b, n - 2 - i));
    }
  }

  lemma NoPower(b: nat, v: nat)
    ensures Pow(b, 0) == 1 && v / Pow(b, 0) == v
  {
  }

  // byte & (1 << k)
  lemma BitTest(x: nat, k: nat)
    ensures 0 <= x / Two(k)
    ensures BitAnd(x, Two(k)) > 0 <==> (x / Two(k)) % 2 == 1
  {
    hide BitAnd, Pow;
    QuotientIsNat(x, Two(k));
    AndHigh(x, 1, k);
    AndOnes(x / Two(k), 1);
    PowTwo(2);
  }

  // byte | (1 << k) for a bit that is not set yet.
  lemma {:induction false} BitSet(x: nat, k: nat)
    requires (x / Two(k)) % 2 == 0
    ensures BitOr(x, Two(k)) == x + Two(k)
  {
    if k != 0 {
      HalfDiv(x, Two(k - 1));
      BitSet(x / 2, k - 1);
    }
  }

  // Bit t of a byte string is bit 7 - t % 8 of byte t / 8.
  lemma BitOfByte(s: seq<Byte>, t: nat)
    requires t < 8 * |s|
    ensures BitsOf(s)[t] == (s[t / 8] / Two(7 - t % 8)) % 2
  {
    hide BitsOf, Pow, Value;
    var q, k := t / 8, t % 8;
    BitsConcat(s[..q] + [s[q]], s[q + 1..]);
    BitsConcat(s[..q], [s[q]]);
    assert s == s[..q] + [s[q]] + s[q + 1..];
    assert BitsOf(s)[t] == BitsOf([s[q]])[k];
    OneByte(s[q]);
    FixedDigit(s[q], 2, 8, k);
  }

  lemma OneByte(x: Byte)
    ensures BitsOf([x]) == Fixed(x, 2, 8)
  {
    hide Fixed;
    ValueSnoc([], x, 256);
    assert [] + [x] == [x];
  }

  // Adding to one digit adds its weight.
  lemma UpdateValue(s: seq<nat>, i: nat, d: nat, b: nat)
    requires i < |s|
    ensures Value(s[i := s[i] + d], b) == Value(s, b) + d * Pow(b, |s| - 1 - i)
  {
    hide Value, Pow;
    var t := s[i := s[i] + d];
    ValueConcat(s[..i], s[i..], b);
    ValueConcat(t[..i], t[i..], b);
    ValueCons(s[i..], b);
    ValueCons(t[i..], b);
    assert s[..i] + s[i..] == s && t[..i] + t[i..] == t && t[..i] == s[..i] && t[i..][1..] == s[i..][1..];
    assert (s[i] + d) * Pow(b, |s| - 1 - i) == s[i] * Pow(b, |s| - 1 - i) + d * Pow(b, |s| - 1 - i);
  }

  // Setting one bit of one byte sets that bit of the whole.
  lemma SetBit(s: seq<Byte>, t: nat)
    requires t < 8 * |s| && BitsOf(s)[t] == 0
    ensures BitOr(s[t / 8], Two(7 - t % 8)) < 256
    ensures BitsOf(s[t / 8 := BitOr(s[t / 8], Two(7 - t % 8))]) == BitsOf(s)[t := 1]
  {
    hide BitsOf, Value, Pow, Two, BitOr;
    var q, k, n := t / 8, 7 - t % 8, |s|;
    var b := BitsOf(s);
    BitOfByte(s, t);
    BitSet(s[q], k);
    SetByte(s[q], k);
    var s' := s[q := s[q] + Two(k)];
    UpdateValue(s, q, Two(k), 256);
    UpdateValue(b, t, 1, 2);
    BytesArePowers(n - 1 - q);
    TwoAdd(k, 8 * (n - 1 - q));
    TwoIsPow(8 * n - 1 - t);
    BitsValue(s);
    assert k + 8 * (n - 1 - q) == 8 * n - 1 - t;
    BitsAre(s', b[t := 1]);
  }

  lemma SetByte(x: Byte, k: nat)
    requires k < 8 && (x / Two(k)) % 2 == 0
    ensures x + Two(k) < 256
  {
    hide Pow, Two;
    TwoAdd(k, 8 - k);
    ByteIsTwo();
    QuotientIsNat(x, Two(k));
    TwoAdd(1, 7 - k);
    OneBitTwo();
    EvenRoom(x, Two(k), Two(7 - k));
  }

  lemma ByteIsTwo()
    ensures Two(8) == 256
  {
    Pow2At8();
  }

  lemma OneBitTwo()
    ensures Two(1) == 2
  {
    PowTwo(2);
  }

  lemma EvenRoom(x: nat, p: nat, w: nat)
    requires p > 0 && w > 0 && x < p * (2 * w) && (x / p) % 2 == 0
    ensures x + p < p * (2 * w)
  {
    var q := x / p;
    QuotientIsNat(x, p);
    if q >= 2 * w { MulLe(2 * w, q, p); }
    EvenBelow(q, w);
    MulLe(q + 2, 2 * w, p);
    TwoMore(q, p);
  }

  lemma EvenBelow(q: int, w: int)
    requires q < 2 * w && q % 2 == 0
    ensures q + 2 <= 2 * w
  {
  }

  lemma TwoMore(q: int, p: int)
    ensures (q + 2) * p == p * q + 2 * p
  {
  }

  // A byte string from its bits.
  ghost function FromBits(b: seq<nat>): (s: seq<Byte>)
    requires Digits(b, 2) && |b| % 8 == 0
    ensures 8 * |s| == |b| && BitsOf(s) == b
  {
    FromBitsIs(b);
    Fixed(Value(b, 2), 256, |b| / 8)
  }

  lemma FromBitsIs(b: seq<nat>)
    requires Digits(b, 2) && |b| % 8 == 0
    ensures var s := Fixed(Value(b, 2), 256, |b| / 8); (forall i :: 0 <= i < |s| ==> s[i] < 256) && BitsOf(s) == b
  {
    hide Value, Pow, Fixed, BitsOf;
    var n := |b| / 8;
    ValueBound(b, 2);
    BytesArePowers(n);
    TwoIsPow(8 * n);
    FixedDigits(Value(b, 2), 256, n);
    FixedValue(Value(b, 2), 256, n);
    BitsAre(Fixed(Value(b, 2), 256, n), b);
  }

  // ------------------------------------------------- words and their numbers

  ghost predicate GoodWord(w: string) {
    0 < |w| <= 9 && forall i :: 0 <= i < |w| ==> w[i] != ' ' && w[i] != NUL
  }

  // What is asked of a word list: 2048 different words without blanks that fit
  // the reader's buffer.
  ghost predicate GoodList(words: seq<string>) {
    && |words| == 2048 && (forall i :: 0 <= i < |words| ==> GoodWord(words[i]))
    && forall i, j :: 0 <= i < j < |words| ==> words[i] != words[j]
  }

  ghost predicate Numbered(ix: seq<nat>) {
    forall i :: 0 <= i < |ix| ==> ix[i] < 2048
  }

  // The words with these numbers, a blank between any two.
  ghost function Phrase(ix: seq<nat>, words: seq<string>): string
    requires Numbered(ix) && |words| == 2048
  {
    if ix == [] then ""
    else if |ix| == 1 then words[ix[0]]
    else Phrase(ix[..|ix| - 1], words) + " " + words[ix[|ix| - 1]]
  }

  // A text cut at every blank.
  function Split(s: string): (ws: seq<string>)
    ensures |ws| > 0
  {
    if s == "" then [""]
    else
      var ws, c := Split(s[..|s| - 1]), s[|s| - 1];
      if c == ' ' then ws + [""] else ws[|ws| - 1 := ws[|ws| - 1] + [c]]
  }

  lemma SplitSnoc(s: string, c: char)
    ensures Split(s + [c]) == if c == ' ' then Split(s) + [""]
              else Split(s)[|Split(s)| - 1 := Split(s)[|Split(s)| - 1] + [c]]
  {
    assert (s + [c])[..|s|] == s;
  }

  // Appending a text without blanks only lengthens the last piece.
  lemma {:induction false} SplitWord(s: string, w: string)
    requires forall i :: 0 <= i < |w| ==> w[i] != ' '
    ensures Split(s + w) == Split(s)[|Split(s)| - 1 := Split(s)[|Split(s)| - 1] + w]
  {
    if w == "" {
      assert s + w == s;
      assert Split(s)[|Split(s)| - 1] + w == Split(s)[|Split(s)| - 1];
    } else {
      var v, c := w[..|w| - 1], w[|w| - 1];
      SplitWord(s, v);
      assert s + w == (s + v) + [c];
      SplitSnoc(s + v, c);
      assert Split(s)[|Split(s)| - 1] + v + [c] == Split(s)[|Split(s)| - 1] + w;
    }
  }

  // Pieces that are complete stay, and the last one only grows.
  lemma {:induction false} SplitGrows(s: string, n: nat)
    requires n <= |s|
    ensures var a, b := Split(s[..n]), Split(s);
            |a| <= |b| && (forall k :: 0 <= k < |a| - 1 ==> b[k] == a[k]) && a[|a| - 1] <= b[|a| - 1]
    ensures n < |s| && s[n] == ' ' ==> |Split(s[..n])| < |Split(s)|
                                       && Split(s)[|Split(s[..n])| - 1] == Split(s[..n])[|Split(s[..n])| - 1]
    decreases |s| - n
  {
    if n == |s| {
      assert s[..n] == s;
    } else {
      assert s[..n + 1] == s[..n] + [s[n]];
      SplitSnoc(s[..n], s[n]);
      SplitGrows(s, n + 1);
    }
  }

  ghost function WordsOf(ix: seq<nat>, words: seq<string>): (ws: seq<string>)
    requires Numbered(ix) && |words| == 2048
    ensures |ws| == |ix| && forall i :: 0 <= i < |ix| ==> ws[i] == words[ix[i]]
  {
    seq(|ix|, i requires 0 <= i < |ix| => words[ix[i]])
  }

  // Cutting a phrase gives its words back.
  lemma {:induction false} SplitPhrase(ix: seq<nat>, words: seq<string>)
    requires GoodList(words) && Numbered(ix) && ix != []
    ensures Split(Phrase(ix, words)) == WordsOf(ix, words)
  {
    hide Split;
    var n := |ix| - 1;
    var w := words[ix[n]];
    assert GoodWord(w);
    if n == 0 {
      EmptySplit();
      SplitWord("", w);
      assert "" + w == w;
    } else {
      var p := Phrase(ix[..n], words);
      SplitPhrase(ix[..n], words);
      OneMoreWord(p, w);
      assert WordsOf(ix, words) == WordsOf(ix[..n], words) + [w];
    }
  }

  lemma EmptySplit()
    ensures Split("") == [""]
  {
  }

  lemma OneMoreWord(p: string, w: string)
    requires forall i :: 0 <= i < |w| ==> w[i] != ' '
    ensures Split(p + " " + w) == Split(p) + [w]
  {
    hide Split;
    SplitSnoc(p, ' ');
    assert p + " " == p + [' '];
    SplitWord(p + " ", w);
    assert "" + w == w;
  }

  // A text whose pieces are these words is the phrase.
  lemma {:induction false} PhraseOfSplit(s: string, ix: seq<nat>, words: seq<string>)
    requires GoodList(words) && Numbered(ix) && Split(s) == WordsOf(ix, words)
    ensures ix != [] && s == Phrase(ix, words)
    decreases |ix|
  {
    var n := |ix| - 1;
    var w := words[ix[n]];
    assert GoodWord(w);
    LastPiece(s);
    var k := |s| - |Split(s)[n]|;
    assert Split(s)[n] == w;
    assert s == s[..k] + w;
    if n == 0 {
      assert k == 0;
    } else {
      assert s[..k] == s[..k - 1] + " ";
      assert Split(s[..k - 1]) == Split(s)[..n] == WordsOf(ix[..n], words);
      PhraseOfSplit(s[..k - 1], ix[..n], words);
    }
  }

  // What precedes the last piece.
  lemma {:induction false} LastPiece(s: string)
    ensures var ws := Split(s); var n, k := |ws| - 1, |s| - |ws[|ws| - 1]|;
            k >= 0 && s[k..] == ws[n] && (if n == 0 then k == 0 else k > 0 && s[k - 1] == ' '
                                                                     && Split(s[..k - 1]) == ws[..n])
  {
    hide Split;
    if s == "" {
      EmptySplit();
    } else {
      var t, c := s[..|s| - 1], s[|s| - 1];
      assert s == t + [c];
      LastPiece(t);
      SplitSnoc(t, c);
      LastOf(t, c, Split(t));
    }
  }

  lemma LastOf(t: string, c: char, ws: seq<string>)
    requires |ws| > 0 && |t| >= |ws[|ws| - 1]| && t[|t| - |ws[|ws| - 1]|..] == ws[|ws| - 1]
    ensures var n, k := |ws| - 1, |t| - |ws[|ws| - 1]|;
            && (t + [c])[k..] == ws[n] + [c] && ws[n := ws[n] + [c]][..n] == ws[..n] && (ws + [""])[..n + 1] == ws
            && (t + [c])[..|t|] == t && (k > 0 ==> (t + [c])[..k - 1] == t[..k - 1])
  {
  }

  // ------------------------------------------------ eleven bits to a number

  ghost function Number(b: seq<nat>, i: nat): nat
    requires WORD_BITS * i + WORD_BITS <= |b|
  {
    Value(b[WORD_BITS * i..WORD_BITS * i + WORD_BITS], 2)
  }

  ghost function WordNumbers(b: seq<nat>, n: nat): (ix: seq<nat>)
    requires WORD_BITS * n <= |b| && Digits(b, 2)
    ensures |ix| == n && Numbered(ix) && forall i :: 0 <= i < n ==> ix[i] == Number(b, i)
  {
    NumbersFit(b, n);
    seq(n, i requires 0 <= i < n => Number(b, i))
  }

  lemma NumbersFit(b: seq<nat>, n: nat)
    requires WORD_BITS * n <= |b| && Digits(b, 2)
    ensures forall i :: 0 <= i < n ==> Number(b, i) < 2048
  {
    hide Value, Pow;
    forall i | 0 <= i < n ensures Number(b, i) < 2048 {
      ValueBound(b[WORD_BITS * i..WORD_BITS * i + WORD_BITS], 2);
      WordRange();
    }
  }

  lemma WordRange()
    ensures Pow(2, 11) == 2048
  {
    Pow2At8();
    PowAdd(2, 8, 3);
    assert Pow(2, 3) == 8;
  }

  // All the bits of a list of numbers.
  ghost function Flat(ix: seq<nat>): (b: seq<nat>)
    ensures |b| == WORD_BITS * |ix|
  {
    if ix == [] then [] else Flat(ix[..|ix| - 1]) + Fixed(ix[|ix| - 1], 2, WORD_BITS)
  }

  lemma {:induction false} FlatDigits(ix: seq<nat>)
    ensures Digits(Flat(ix), 2)
  {
    hide Fixed;
    if ix != [] {
      FlatDigits(ix[..|ix| - 1]);
      FixedDigits(ix[|ix| - 1], 2, WORD_BITS);
    }
  }

  lemma {:induction false} FlatNumbers(b: seq<nat>, n: nat)
    requires WORD_BITS * n <= |b| && Digits(b, 2)
    ensures Flat(WordNumbers(b, n)) == b[..WORD_BITS * n]
  {
    hide Value, Fixed;
    if n != 0 {
      FlatNumbers(b, n - 1);
      assert WordNumbers(b, n)[..n - 1] == WordNumbers(b, n - 1);
      var m := WORD_BITS * (n - 1);
      FixedUnique(b[m..m + WORD_BITS], 2);
      assert b[..m] + b[m..m + WORD_BITS] == b[..WORD_BITS * n];
    }
  }

  lemma {:induction false} NumbersFlat(ix: seq<nat>, z: seq<nat>)
    requires Numbered(ix) && Digits(z, 2)
    ensures Digits(Flat(ix) + z, 2) && WordNumbers(Flat(ix) + z, |ix|) == ix
  {
    hide Value, Fixed, Pow, Flat, WordNumbers;
    FlatDigits(ix);
    if ix == [] {
      assert WordNumbers(Flat(ix) + z, 0) == [];
    } else {
      var n := |ix| - 1;
      var last := Fixed(ix[n], 2, WORD_BITS);
      FixedDigits(ix[n], 2, WORD_BITS);
      NumbersFlat(ix[..n], last + z);
      FlatSnoc(ix);
      assert Flat(ix) + z == Flat(ix[..n]) + (last + z);
      LastNumber(Flat(ix[..n]), ix[n], z);
      assert WordNumbers(Flat(ix) + z, |ix|)[..n] == WordNumbers(Flat(ix) + z, n);
    }
  }

  lemma FlatSnoc(ix: seq<nat>)
    requires ix != []
    ensures Flat(ix) == Flat(ix[..|ix| - 1]) + Fixed(ix[|ix| - 1], 2, WORD_BITS)
  {
  }

  lemma LastNumber(b: seq<nat>, k: nat, z: seq<nat>)
    requires |b| % WORD_BITS == 0 && k < 2048
    ensures Number(b + (Fixed(k, 2, WORD_BITS) + z), |b| / WORD_BITS) == k
  {
    hide Value, Fixed, Pow;
    var last := Fixed(k, 2, WORD_BITS);
    assert (b + (last + z))[|b|..|b| + WORD_BITS] == last;
    WordRange();
    FixedValue(k, 2, WORD_BITS);
  }

  // --------------------------------------------------------------- encoding

  ghost function Entropy(d: seq<Byte>, hash: seq<Byte> -> Digest): seq<Byte> {
    d + [hash(d)[0]]
  }

  ghost predicate EncodableSize(n: nat) {
    n % 4 == 0 && 16 <= n <= 32
  }

  ghost function SentenceNumbers(d: seq<Byte>, hash: seq<Byte> -> Digest): (ix: seq<nat>)
    requires EncodableSize(|d|)
    ensures |ix| == |d| * 3 / 4 && Numbered(ix)
  {
    BitsValue(Entropy(d, hash));
    WordNumbers(BitsOf(Entropy(d, hash)), |d| * 3 / 4)
  }

  // idx, the number of a word, from its eleven bits.
  method WordNumber(bits: array<Byte>, i: nat) returns (idx: nat)
    requires WORD_BITS * i + WORD_BITS <= 8 * bits.Length
    ensures idx == Number(BitsOf(bits[..]), i)
  {
    hide BitsOf, Value, Pow, BitAnd, Two;
    ghost var b := BitsOf(bits[..]);
    var m := WORD_BITS * i;
    idx := 0;
    ValueZero(b[m..m], 2);
    for j := 0 to WORD_BITS
      invariant idx == Value(b[m..m + j], 2)
    {
      var t := m + j;
      BitOfByte(bits[..], t);
      BitTest(bits[t / 8], 7 - t % 8);
      idx := 2 * idx + if BitAnd(bits[t / 8], Two(7 - t % 8)) > 0 then 1 else 0;
      assert b[m..m + j + 1] == b[m..m + j] + [b[t]];
      ValueSnoc(b[m..m + j], b[t], 2);
    }
  }

  // strcpy and the separator after it.
  method PutWord(mnemo: array<char>, p: nat, w: string, end: char) returns (p': nat)
    requires p + |w| < mnemo.Length
    modifies mnemo
    ensures p' == p + |w| + 1 && mnemo[..p'] == old(mnemo[..p]) + w + [end]
  {
    var k := 0;
    while k < |w|
      invariant 0 <= k <= |w| && mnemo[..p + k] == old(mnemo[..p]) + w[..k]
    {
      ghost var before := mnemo[..p + k];
      mnemo[p + k] := w[k];
      k := k + 1;
      assert mnemo[..p + k] == before + [w[k - 1]];
    }
    ghost var text := mnemo[..p + k];
    mnemo[p + k] := end;
    assert mnemo[..p + k + 1] == text + [end];
    p' := p + k + 1;
  }

  lemma PhraseSnoc(ix: seq<nat>, k: nat, words: seq<string>)
    requires |words| == 2048 && Numbered(ix) && k < |ix|
    ensures Phrase(ix[..k + 1], words) == if k == 0 then words[ix[0]] else Phrase(ix[..k], words) + " " + words[ix[k]]
  {
    assert ix[..k + 1][..k] == ix[..k];
  }

  // The data, then the first byte of its digest.
  method Fill(bits: array<Byte>, data: array<Byte>, len: nat, hash: seq<Byte> -> Digest)
    requires bits.Length == 33 && len <= 32 && len <= data.Length && bits != data
    modifies bits
    ensures bits[..len + 1] == Entropy(data[..len], hash)
  {
    var digest := hash(data[..len]);
    for k := 0 to 32
      invariant forall j :: 0 <= j < k ==> bits[j] == digest[j]
    {
      bits[k] := digest[k];
    }
    bits[len] := bits[0];
    for k := 0 to len
      invariant bits[len] == digest[0]
      invariant forall j :: 0 <= j < k ==> bits[j] == data[j]
    {
      bits[k] := data[k];
    }
  }

  method FromData(mnemo: array<char>, data: array<Byte>, len: nat, words: seq<string>, hash: seq<Byte> -> Digest)
    returns (ok: bool)
    requires GoodList(words) && len <= data.Length && mnemo.Length >= 240
    modifies mnemo
    ensures ok <==> EncodableSize(len)
    ensures ok <==> len in {16, 20, 24, 28, 32}
    ensures ok ==> var p := Phrase(SentenceNumbers(data[..len], hash), words);
                   |p| < 240 && mnemo[..|p| + 1] == p + [NUL]
  {
    hide BitsOf, Number, Phrase, Flat;
    if len % 4 != 0 || len < 16 || len > 32 {
      return false;
    }
    var bits := new Byte[33](_ => 0);
    Fill(bits, data, len, hash);
    var mlen := len * 3 / 4;
    ghost var d := data[..len];
    ghost var ix := SentenceNumbers(d, hash);
    var i, p := 0, 0;
    while i < mlen
      invariant 0 <= i <= mlen && 0 <= p <= 10 * i && bits[..len + 1] == Entropy(d, hash)
      invariant i == 0 ==> p == 0
      invariant i > 0 ==> p == |Phrase(ix[..i], words)| + 1
                          && mnemo[..p] == Phrase(ix[..i], words) + [if i < mlen then ' ' else NUL]
    {
      var idx := WordNumber(bits, i);
      SamePrefix(bits[..], len + 1, i);
      assert idx == ix[i] < 2048;
      assert GoodWord(words[idx]);
      PhraseSnoc(ix, i, words);
      ghost var before := mnemo[..p];
      p := PutWord(mnemo, p, words[idx], if i < mlen - 1 then ' ' else NUL);
      i := i + 1;
    }
    assert ix[..mlen] == ix;
    return true;
  }

  lemma SamePrefix(s: seq<Byte>, n: nat, i: nat)
    requires n <= |s| && WORD_BITS * i + WORD_BITS <= 8 * n
    ensures Number(BitsOf(s), i) == Number(BitsOf(s[..n]), i)
  {
    hide BitsOf, Value;
    BitsConcat(s[..n], s[n..]);
    assert s[..n] + s[n..] == s;
    var m := WORD_BITS * i;
    assert BitsOf(s)[m..m + WORD_BITS] == BitsOf(s[..n])[m..m + WORD_BITS];
  }

  // --------------------------------------------------------------- decoding

  // result[bi / 8] |= 1 << (7 - bi % 8) for the bits of a word number that are
  // set.
  method SetWord(result: array<Byte>, start: nat, k: nat, ghost b: seq<nat>) returns (bi: nat)
    requires start == |b| && start + WORD_BITS <= 8 * result.Length && k < 2048
    requires BitsOf(result[..]) == b + Nulls(8 * result.Length - start)
    modifies result
    ensures bi == start + WORD_BITS
    ensures BitsOf(result[..]) == b + Fixed(k, 2, WORD_BITS) + Nulls(8 * result.Length - bi)
  {
    hide BitsOf, BitAnd, BitOr, Two, Fixed, Value, Pow;
    bi := start;
    ghost var w, n := Fixed(k, 2, WORD_BITS), 8 * result.Length;
    assert b + w[..0] == b;
    for ki := 0 to WORD_BITS
      invariant bi == start + ki && BitsOf(result[..]) == b + w[..ki] + Nulls(n - bi)
    {
      BitTest(k, WORD_BITS - 1 - ki);
      FixedDigit(k, 2, WORD_BITS, ki);
      TwoIsPow(WORD_BITS - 1 - ki);
      OnePlace(b + w[..ki], w[ki], n - bi);
      assert w[..ki + 1] == w[..ki] + [w[ki]];
      assert b + w[..ki + 1] == b + w[..ki] + [w[ki]];
      if BitAnd(k, Two(WORD_BITS - 1 - ki)) > 0 {
        SetBit(result[..], bi);
        ghost var before := result[..];
        result[bi / 8] := BitOr(result[bi / 8], Two(7 - bi % 8));
        assert result[..] == before[bi / 8 := result[bi / 8]];
      }
      bi := bi + 1;
    }
    assert w[..WORD_BITS] == w;
  }

  lemma OnePlace(b: seq<nat>, d: nat, m: nat)
    requires m > 0
    ensures (b + Nulls(m))[|b|] == 0
    ensures (b + Nulls(m))[|b| := d] == b + [d] + Nulls(m - 1)
    ensures (b + Nulls(m))[|b| := 0] == b + Nulls(m)
  {
  }

  method FindWord(words: seq<string>, word: string) returns (k: nat)
    ensures k <= |words| && (k < |words| ==> words[k] == word) && (k == |words| ==> word !in words)
  {
    k := 0;
    while k < |words| && words[k] != word
      invariant 0 <= k <= |words| && word !in words[..k]
    {
      k := k + 1;
    }
    assert words[..k] + words[k..] == words;
  }

  predicate WordCount(n: nat) {
    n == 12 || n == 18 || n == 24
  }

  // The phrases the reader takes: the right number of words, all on the list.
  ghost predicate Readable(s: string, words: seq<string>) {
    WordCount(|Split(s)|) && forall w :: w in Split(s) ==> w in words
  }

  lemma UnknownPiece(s: string, k: nat, words: seq<string>)
    requires k < |Split(s)| && Split(s)[k] !in words
    ensures !Readable(s, words)
  {
    assert Split(s)[k] in Split(s);
  }

  method CountWords(mnemonic: array<char>) returns (n: nat)
    requires NUL in mnemonic[..]
    ensures n == |Split(UpToNul(mnemonic[..]))|
  {
    hide UpToNul;
    UpToNulIs(mnemonic[..]);
    ghost var s := UpToNul(mnemonic[..]);
    n := 0;
    var i := 0;
    assert s[..0] == "";
    while mnemonic[i] != NUL
      invariant 0 <= i <= |s| && s == mnemonic[..|s|] && |s| < mnemonic.Length && n + 1 == |Split(s[..i])|
      decreases mnemonic.Length - i
    {
      assert s[..i + 1] == s[..i] + [s[i]];
      if mnemonic[i] == ' ' {
        n := n + 1;
      }
      i := i + 1;
    }
    assert s[..i] == s;
    n := n + 1;
  }

  // Reads one word; fails when it does not fit nine characters.
  method ReadWord(mnemonic: array<char>, start: nat, ghost s: string, ghost ws: seq<string>)
    returns (ok: bool, word: string, i: nat)
    requires |s| < mnemonic.Length && s == mnemonic[..|s|] && mnemonic[|s|] == NUL && NUL !in s
    requires start <= |s| && Split(s[..start]) == ws + [""]
    ensures start <= i <= |s|
    ensures ok ==> Split(s[..i]) == ws + [word] && (i < |s| ==> s[i] == ' ')
    ensures !ok ==> |Split(s)| > |ws| && |Split(s)[|ws|]| > 9
  {
    hide Split;
    word := "";
    i := start;
    while mnemonic[i] != ' ' && mnemonic[i] != NUL
      invariant start <= i <= |s| && |word| <= 9 && Split(s[..i]) == ws + [word]
      decreases mnemonic.Length - i
    {
      assert s[..i + 1] == s[..i] + [s[i]] && i < |s|;
      SplitSnoc(s[..i], s[i]);
      assert (ws + [word])[|ws| := word + [s[i]]] == ws + [word + [s[i]]];
      if |word| >= 9 {
        SplitGrows(s, i + 1);
        return false, word, i;
      }
      word := word + [mnemonic[i]];
      i := i + 1;
    }
    ok := true;
  }

  // What holds between words: those read so far are complete, or the text ended
  // with the last one.
  ghost predicate Between(s: string, i: nat, ws: seq<string>) {
    i <= |s| && (Split(s[..i]) == ws + [""] || (i == |s| && Split(s) == ws))
  }

  lemma AtWord(s: string, i: nat, ws: seq<string>)
    requires Between(s, i, ws) && i < |s|
    ensures Split(s[..i]) == ws + [""] && |ws| < |Split(s)|
  {
    hide Split;
    SplitGrows(s, i);
  }

  // A word has been read up to i.
  lemma AfterWord(s: string, i: nat, ws: seq<string>, word: string)
    requires i <= |s| && Split(s[..i]) == ws + [word] && (i < |s| ==> s[i] == ' ')
    ensures |ws| < |Split(s)| && Split(s)[|ws|] == word
    ensures Between(s, if i < |s| then i + 1 else i, ws + [word])
  {
    hide Split;
    SplitGrows(s, i);
    if i < |s| {
      assert s[..i + 1] == s[..i] + [s[i]];
      SplitSnoc(s[..i], s[i]);
    } else {
      assert s[..i] == s;
    }
  }

  // The bits of these word numbers, and nothing behind them.
  ghost predicate Stored(r: seq<Byte>, ix: seq<nat>) {
    |r| == 33 && Numbered(ix) && WORD_BITS * |ix| <= 264 && BitsOf(r) == Flat(ix) + Nulls(264 - WORD_BITS * |ix|)
  }

  method StoreWord(result: array<Byte>, start: nat, k: nat, ghost ix: seq<nat>) returns (bi: nat)
    requires result.Length == 33 && Stored(result[..], ix) && start == WORD_BITS * |ix| && |ix| < 24 && k < 2048
    modifies result
    ensures Stored(result[..], ix + [k]) && bi == WORD_BITS * |ix + [k]|
  {
    hide BitsOf, Fixed;
    bi := SetWord(result, start, k, Flat(ix));
    assert (ix + [k])[..|ix|] == ix;
  }

  lemma WordsSnoc(ix: seq<nat>, k: nat, words: seq<string>)
    requires Numbered(ix) && k < 2048 == |words|
    ensures WordsOf(ix + [k], words) == WordsOf(ix, words) + [words[k]]
  {
  }

  lemma NoWords(words: seq<string>)
    requires |words| == 2048
    ensures WordsOf([], words) == []
  {
  }

  lemma NothingStored(r: seq<Byte>)
    requires |r| == 33 && BitsOf(r) == Nulls(264)
    ensures Stored(r, [])
  {
    assert Flat([]) + Nulls(264) == Nulls(264);
  }

  // The bits of a readable phrase; 0 for any other.
  method ToBits(mnemonic: array<char>, words: seq<string>, result: array<Byte>) returns (n: nat, ghost ix: seq<nat>)
    requires NUL in mnemonic[..] && GoodList(words) && result.Length == 33 && BitsOf(result[..]) == Nulls(264)
    modifies result
    ensures n == if Readable(UpToNul(mnemonic[..]), words) then WORD_BITS * |Split(UpToNul(mnemonic[..]))| else 0
    ensures n != 0 ==> Numbered(ix) && Split(UpToNul(mnemonic[..])) == WordsOf(ix, words)
    ensures n != 0 ==> Stored(result[..], ix)
  {
    hide BitsOf, Split, UpToNul, Fixed, Between, Readable, Stored, WordsOf;
    ghost var s := UpToNul(mnemonic[..]);
    UpToNulIs(mnemonic[..]);
    ix := [];
    n := CountWords(mnemonic);
    WrongCount(s, words);
    if n != 12 && n != 18 && n != 24 {
      return 0, ix;
    }
    var i, bi := 0, 0;
    StartBetween(s);
    NothingStored(result[..]);
    NoWords(words);
    while mnemonic[i] != NUL
      invariant 0 <= i <= |s| && s == mnemonic[..|s|] && |s| < mnemonic.Length && mnemonic[|s|] == NUL && NUL !in s
      invariant Numbered(ix) && bi == WORD_BITS * |ix| && |ix| <= n && Between(s, i, WordsOf(ix, words))
      invariant Stored(result[..], ix)
      decreases mnemonic.Length - i
    {
      ghost var ws := WordsOf(ix, words);
      AtWord(s, i, ws);
      var ok, word;
      ok, word, i := ReadWord(mnemonic, i, s, ws);
      if !ok {
        TooLong(s, |ws|, words);
        return 0, ix;
      }
      AfterWord(s, i, ws, word);
      if mnemonic[i] != NUL {
        i := i + 1;
      }
      var k := FindWord(words, word);
      if k == |words| {
        UnknownPiece(s, |ws|, words);
        return 0, ix;
      }
      bi := StoreWord(result, bi, k, ix);
      WordsSnoc(ix, k, words);
      ix := ix + [k];
    }
    EndOfText(s, i, ix, words);
    if bi != n * WORD_BITS {
      return 0, ix;
    }
    return n * WORD_BITS, ix;
  }

  lemma WrongCount(s: string, words: seq<string>)
    ensures !WordCount(|Split(s)|) ==> !Readable(s, words)
  {
  }

  lemma StartBetween(s: string)
    ensures Between(s, 0, [])
  {
    assert s[..0] == "";
  }

  lemma TooLong(s: string, k: nat, words: seq<string>)
    requires GoodList(words) && k < |Split(s)| && |Split(s)[k]| > 9
    ensures !Readable(s, words)
  {
    hide Split;
    UnknownPiece(s, k, words);
  }

  lemma EndOfText(s: string, i: nat, ix: seq<nat>, words: seq<string>)
    requires GoodList(words) && Numbered(ix) && Between(s, i, WordsOf(ix, words)) && i == |s|
    ensures |ix| == |Split(s)| ==> Split(s) == WordsOf(ix, words) && (WordCount(|Split(s)|) ==> Readable(s, words))
    ensures |ix| != |Split(s)| ==> !Readable(s, words)
  {
    hide Split;
    assert s[..i] == s;
    if |ix| == |Split(s)| {
      forall w | w in Split(s) ensures w in words {
        var k :| 0 <= k < |ix| && Split(s)[k] == w;
        assert words[ix[k]] == w;
      }
    } else {
      UnknownPiece(s, |ix|, words);
    }
  }

  ghost function IndexOf(words: seq<string>, w: string): (k: nat)
    requires w in words
    ensures k < |words| && words[k] == w
  {
    var k :| 0 <= k < |words| && words[k] == w;
    k
  }

  ghost function NumbersOf(s: string, words: seq<string>): (ix: seq<nat>)
    requires Readable(s, words) && |words| == 2048
    ensures Numbered(ix) && WordsOf(ix, words) == Split(s)
  {
    seq(|Split(s)|, i requires 0 <= i < |Split(s)| => IndexOf(words, Split(s)[i]))
  }

  lemma NumbersUnique(ix: seq<nat>, jx: seq<nat>, words: seq<string>)
    requires GoodList(words) && Numbered(ix) && Numbered(jx) && WordsOf(ix, words) == WordsOf(jx, words)
    ensures ix == jx
  {
    assert |ix| == |WordsOf(ix, words)| == |jx|;
    forall i | 0 <= i < |ix| ensures ix[i] == jx[i] {
      assert WordsOf(ix, words)[i] == WordsOf(jx, words)[i];
    }
  }

  // The 33 bytes the words of a phrase fill.
  ghost function BytesOf(ix: seq<nat>): (r: seq<Byte>)
    requires WORD_BITS * |ix| <= 264 && Numbered(ix)
    ensures |r| == 33 && BitsOf(r) == Flat(ix) + Nulls(264 - WORD_BITS * |ix|)
  {
    FlatDigits(ix);
    FromBits(Flat(ix) + Nulls(264 - WORD_BITS * |ix|))
  }

  // The same k leading bits.
  ghost predicate SameTop(x: Byte, y: Byte, k: nat)
    requires k <= 8
  {
    x / Two(8 - k) == y / Two(8 - k)
  }

  // A phrase the checker accepts: readable, and the first n / 3 bits after the
  // data are those of the digest.
  ghost predicate Accepted(s: string, words: seq<string>, hash: seq<Byte> -> Digest)
    requires GoodList(words)
  {
    Readable(s, words) &&
    var n, r := |Split(s)|, BytesOf(NumbersOf(s, words));
    SameTop(hash(r[..n * 4 / 3])[0], r[n * 4 / 3], n / 3)
  }

  // Masks with k leading ones.
  lemma TopMask(x: Byte, y: Byte)
    ensures BitAnd(x, 0xF0) == BitAnd(y, 0xF0) <==> SameTop(x, y, 4)
    ensures BitAnd(x, 0xFC) == BitAnd(y, 0xFC) <==> SameTop(x, y, 6)
    ensures x == y <==> SameTop(x, y, 8)
  {
    hide BitAnd, Two;
    MaskIs(x);
    MaskIs(y);
    SmallTwos();
  }

  lemma MaskIs(x: Byte)
    ensures BitAnd(x, 0xF0) == (x / 16) * 16 && BitAnd(x, 0xFC) == (x / 4) * 4
  {
    hide BitAnd, Two;
    SmallTwos();
    SmallMask(x, 4);
    SmallMask(x, 2);
  }

  lemma SmallTwos()
    ensures Two(0) == 1 && Two(2) == 4 && Two(4) == 16
  {
    PowTwo(2);
    PowAdd(2, 2, 2);
  }

  lemma SmallMask(x: nat, k: nat)
    requires x < 256 && k <= 8
    ensures 0 <= 256 - Two(k)
    ensures BitAnd(x, 256 - Two(k)) == (x / Two(k)) * Two(k)
  {
    MaskBelow(x, k, 8);
    Pow2At8();
  }

  lemma {:induction false} MaskBelow(x: nat, k: nat, n: nat)
    requires x < Two(n) && k <= n
    ensures 0 <= Two(n) - Two(k)
    ensures BitAnd(x, Two(n) - Two(k)) == (x / Two(k)) * Two(k)
    decreases k
  {
    hide BitAnd, Pow, Two;
    TwoGrows(k, n);
    if k == 0 {
      NoMaskedBits(x, n);
    } else {
      TwoStep(k - 1);
      TwoStep(n - 1);
      MaskBelow(x / 2, k - 1, n - 1);
      HalfDiv(x, Two(k - 1));
      MaskHalves(x, Two(n - 1) - Two(k - 1));
      DoubleProduct((x / 2) / Two(k - 1), Two(k - 1));
    }
  }

  lemma TwoGrows(k: nat, n: nat)
    requires k <= n
    ensures Two(k) <= Two(n)
  {
    PowMonotone(2, k, n);
  }

  lemma TwoStep(k: nat)
    ensures Two(k + 1) == 2 * Two(k)
  {
    PowStep(2, k);
  }

  lemma DoubleProduct(q: int, p: int)
    ensures q * (2 * p) == 2 * (q * p)
  {
  }

  lemma NoMaskedBits(x: nat, n: nat)
    requires x < Two(n)
    ensures BitAnd(x, Two(n) - Two(0)) == (x / Two(0)) * Two(0)
  {
    hide BitAnd;
    SmallTwos();
    AndOnes(x, n);
    ModSmall(x, Two(n));
  }

  lemma MaskHalves(x: nat, m: nat)
    ensures BitAnd(x, 2 * m) == 2 * BitAnd(x / 2, m)
  {
  }

  method CheckAndBits(mnemonic: array<char>, words: seq<string>, hash: seq<Byte> -> Digest, result: array<Byte>)
    returns (ok: bool, len: nat)
    requires NUL in mnemonic[..] && GoodList(words) && result.Length >= 32
    modifies result
    ensures ok <==> Accepted(UpToNul(mnemonic[..]), words, hash)
    ensures ok ==> len == |Split(UpToNul(mnemonic[..]))| * 4 / 3 <= result.Length
                   && result[..len] == BytesOf(NumbersOf(UpToNul(mnemonic[..]), words))[..len]
  {
    hide BitsOf, Split, UpToNul, Stored, BytesOf, NumbersOf, BitAnd, SameTop, Readable, Flat;
    ghost var s := UpToNul(mnemonic[..]);
    var bits := new Byte[33](_ => 0);
    NullBytes(33, bits[..]);
    var n;
    ghost var ix;
    n, ix := ToBits(mnemonic, words, bits);
    len := 0;
    if n != 12 * WORD_BITS && n != 18 * WORD_BITS && n != 24 * WORD_BITS {
      NoCount(s, words);
      return false, len;
    }
    NumbersUnique(ix, NumbersOf(s, words), words);
    StoredBytes(bits[..], ix);
    ghost var r := bits[..];
    var count := n / WORD_BITS;
    len := count * 4 / 3;
    for k := 0 to len
      invariant bits[..] == r && forall j :: 0 <= j < k ==> result[j] == r[j]
    {
      result[k] := bits[k];
    }
    var checksum := bits[len];
    var digest := hash(bits[..len]);
    assert bits[..len] == r[..len];
    TopMask(digest[0], checksum);
    if count == 12 {
      return BitAnd(digest[0], 0xF0) == BitAnd(checksum, 0xF0), len;
    } else if count == 18 {
      return BitAnd(digest[0], 0xFC) == BitAnd(checksum, 0xFC), len;
    } else {
      return digest[0] == checksum, len;
    }
  }

  lemma NoCount(s: string, words: seq<string>)
    ensures Readable(s, words) ==> WordCount(|Split(s)|)
  {
  }

  lemma StoredBytes(r: seq<Byte>, ix: seq<nat>)
    requires Stored(r, ix)
    ensures r == BytesOf(ix)
  {
    hide BitsOf;
    BitsInjective(r, BytesOf(ix));
  }

  // ------------------------------------------------------------ round trips

  lemma TopIsQuotient(x: Byte, k: nat)
    requires k <= 8
    ensures x / Two(8 - k) == Value(BitsOf([x])[..k], 2)
  {
    hide Value, Pow, BitsOf, Two;
    var b := BitsOf([x]);
    BitsValue([x]);
    ValueSnoc([], x, 256);
    assert [] + [x] == [x];
    EmptyValue();
    assert b[..k] + b[k..] == b;
    ValueConcat(b[..k], b[k..], 2);
    ValueBound(b[k..], 2);
    TwoIsPow(8 - k);
    Quotient(x, Two(8 - k), Value(b[..k], 2), Value(b[k..], 2));
  }

  lemma EmptyValue()
    ensures Value([], 256) == 0
  {
  }

  lemma SameTopIff(x: Byte, y: Byte, k: nat)
    requires k <= 8
    ensures SameTop(x, y, k) <==> BitsOf([x])[..k] == BitsOf([y])[..k]
  {
    hide Value, BitsOf, Two;
    TopIsQuotient(x, k);
    TopIsQuotient(y, k);
    BitsValue([x]);
    BitsValue([y]);
    if SameTop(x, y, k) { ValueInjective(BitsOf([x])[..k], BitsOf([y])[..k], 2); }
  }

  // Sharing the bits of the data and k more is sharing the data and the top of
  // the byte after it.
  lemma SharedBits(r: seq<Byte>, d: seq<Byte>, h: Byte, k: nat)
    requires |d| < |r| && k <= 8
    ensures BitsOf(r)[..8 * |d| + k] == BitsOf(d + [h])[..8 * |d| + k] <==> r[..|d|] == d && SameTop(h, r[|d|], k)
  {
    hide BitsOf, SameTop;
    var l := |d|;
    BitsConcat(r[..l] + [r[l]], r[l + 1..]);
    BitsConcat(r[..l], [r[l]]);
    BitsConcat(d, [h]);
    assert r == r[..l] + [r[l]] + r[l + 1..];
    SameTopIff(h, r[l], k);
    var a, b := BitsOf(r)[..8 * l + k], BitsOf(d + [h])[..8 * l + k];
    assert a == BitsOf(r[..l]) + BitsOf([r[l]])[..k];
    assert b == BitsOf(d) + BitsOf([h])[..k];
    if a == b {
      assert a[..8 * l] == b[..8 * l] && a[8 * l..] == b[8 * l..];
      BitsInjective(r[..l], d);
    }
  }

  // The checker accepts what the encoder prints, and finds the data again,
  // exactly for the sizes with 12, 18 or 24 words.
  lemma CheckEncoded(d: seq<Byte>, words: seq<string>, hash: seq<Byte> -> Digest)
    requires GoodList(words) && EncodableSize(|d|)
    ensures var s := Phrase(SentenceNumbers(d, hash), words);
            && (Accepted(s, words, hash) <==> |d| == 16 || |d| == 24 || |d| == 32)
            && (Accepted(s, words, hash) ==> BytesOf(NumbersOf(s, words))[..|Split(s)| * 4 / 3] == d)
  {
    hide BitsOf, Split, Phrase, BytesOf, SameTop, Flat, NumbersOf, WordNumbers;
    var ix := SentenceNumbers(d, hash);
    var s := Phrase(ix, words);
    SplitPhrase(ix, words);
    if |d| == 16 || |d| == 24 || |d| == 32 {
      forall w | w in Split(s) ensures w in words { KnownWord(ix, words, w); }
      NumbersUnique(ix, NumbersOf(s, words), words);
      var e, m := Entropy(d, hash), WORD_BITS * |ix|;
      BitsValue(e);
      FlatNumbers(BitsOf(e), |ix|);
      var r := BytesOf(ix);
      assert BitsOf(r)[..m] == Flat(ix);
      SharedBits(r, d, hash(d)[0], |ix| / 3);
    }
  }

  lemma KnownWord(ix: seq<nat>, words: seq<string>, w: string)
    requires Numbered(ix) && |words| == 2048 && w in WordsOf(ix, words)
    ensures w in words
  {
    var k :| 0 <= k < |ix| && WordsOf(ix, words)[k] == w;
    assert words[ix[k]] == w;
  }

  // Every phrase the checker accepts is the one its data encode to.
  lemma EncodeAccepted(s: string, words: seq<string>, hash: seq<Byte> -> Digest)
    requires GoodList(words) && Accepted(s, words, hash)
    ensures var d := BytesOf(NumbersOf(s, words))[..|Split(s)| * 4 / 3];
            EncodableSize(|d|) && Phrase(SentenceNumbers(d, hash), words) == s
  {
    hide BitsOf, Split, Phrase, BytesOf, SameTop, Flat, NumbersOf, WordNumbers;
    var ix := NumbersOf(s, words);
    var r, n := BytesOf(ix), |Split(s)|;
    var d := r[..n * 4 / 3];
    var m := WORD_BITS * n;
    SharedBits(r, d, hash(d)[0], n / 3);
    var b := BitsOf(Entropy(d, hash));
    BitsValue(Entropy(d, hash));
    assert BitsOf(r)[..m] == Flat(ix);
    NumbersOfPrefix(b, ix);
    PhraseOfSplit(s, ix, words);
  }

  lemma NumbersOfPrefix(b: seq<nat>, ix: seq<nat>)
    requires Digits(b, 2) && Numbered(ix) && WORD_BITS * |ix| <= |b| && b[..WORD_BITS * |ix|] == Flat(ix)
    ensures WordNumbers(b, |ix|) == ix
  {
    hide Flat, WordNumbers;
    var m := WORD_BITS * |ix|;
    assert b == Flat(ix) + b[m..];
    NumbersFlat(ix, b[m..]);
  }

  // ------------------------------------------------- the bits of a phrase

  // The words carry eleven bits each, most significant first.
  lemma {:induction false} FlatBits(ix: seq<nat>, i: nat)
    requires Numbered(ix) && i < |ix|
    ensures Value(Flat(ix)[11 * i..11 * i + 11], 2) == ix[i]
  {
    hide Value, Fixed, Pow;
    var n := |ix| - 1;
    FlatSnoc(ix);
    if i == n {
      assert Flat(ix)[11 * i..11 * i + 11] == Fixed(ix[n], 2, WORD_BITS);
      WordRange();
      FixedValue(ix[n], 2, WORD_BITS);
    } else {
      FlatBits(ix[..n], i);
      assert Flat(ix)[11 * i..11 * i + 11] == Flat(ix[..n])[11 * i..11 * i + 11];
    }
  }

  // A phrase carries the data, and after them the leading bits of the first
  // byte of the digest, one for every four bytes.
  lemma PhraseBits(d: seq<Byte>, hash: seq<Byte> -> Digest)
    requires |d| in {16, 20, 24, 28, 32}
    ensures EncodableSize(|d|) && |SentenceNumbers(d, hash)| == 3 * |d| / 4
    ensures Flat(SentenceNumbers(d, hash)) == BitsOf(d) + BitsOf([hash(d)[0]])[..|d| / 4]
  {
    hide BitsOf, Flat, WordNumbers;
    var e := Entropy(d, hash);
    BitsValue(e);
    var n := |d| * 3 / 4;
    assert WORD_BITS * n == 8 * |d| + |d| / 4;
    FlatNumbers(BitsOf(e), n);
    BitsConcat(d, [hash(d)[0]]);
    assert (BitsOf(d) + BitsOf([hash(d)[0]]))[..WORD_BITS * n] == BitsOf(d) + BitsOf([hash(d)[0]])[..|d| / 4];
  }

  // The phrases the checker accepts are those of 16, 24 or 32 bytes.
  lemma AcceptedExactly(s: string, words: seq<string>, hash: seq<Byte> -> Digest)
    requires GoodList(words)
    ensures Accepted(s, words, hash) <==> exists d: seq<Byte> :: PhraseOf(s, d, words, hash)
  {
    hide BitsOf, Split, Phrase, BytesOf, SameTop, Flat, NumbersOf, WordNumbers, Readable;
    if Accepted(s, words, hash) {
      var d := BytesOf(NumbersOf(s, words))[..|Split(s)| * 4 / 3];
      EncodeAccepted(s, words, hash);
      ReadableCount(s, words);
      assert PhraseOf(s, d, words, hash);
    }
    forall d: seq<Byte> | PhraseOf(s, d, words, hash) ensures Accepted(s, words, hash) {
      CheckEncoded(d, words, hash);
    }
  }

  lemma ReadableCount(s: string, words: seq<string>)
    requires Readable(s, words)
    ensures |Split(s)| in {12, 18, 24}
  {
  }

  ghost predicate PhraseOf(s: string, d: seq<Byte>, words: seq<string>, hash: seq<Byte> -> Digest)
    requires |words| == 2048
  {
    |d| in {16, 24, 32} && s == Phrase(SentenceNumbers(d, hash), words)
  }
}
