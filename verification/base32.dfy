/** Base32 and Crockford's Base32, after encoding.c. */
module Base32 {
  import opened BitGroups
  import opened Bits
  import opened CStrings
  import opened Numbers
  import opened Radix

  datatype Alphabet = Standard | Crockford

  // A-Z2-7, or 0-9A-Z without I, L, O and U.
  function SymbolOf(d: nat, a: Alphabet): char
    requires d < 32
  {
    if a == Standard then
      if d < 26 then 'A' + d as char else '2' + (d - 26) as char
    else if d < 10 then '0' + d as char
    else if d < 18 then 'A' + (d - 10) as char
    else if d < 20 then 'J' + (d - 18) as char
    else if d < 22 then 'M' + (d - 20) as char
    else if d < 27 then 'P' + (d - 22) as char
    else 'V' + (d - 27) as char
  }

  // b32table and crockford_table: 64 marks a character of neither alphabet.
  function ValueOf(c: char, a: Alphabet): (v: nat)
    ensures v <= 64 && (a == Standard ==> v < 32 || v == 64)
  {
    if a == Standard then
      if 'A' <= c <= 'Z' then c as int - 'A' as int
      else if 'a' <= c <= 'z' then c as int - 'a' as int
      else if '2' <= c <= '7' then c as int - '2' as int + 26
      else 64
    else if '0' <= c <= '9' then c as int - '0' as int
    else if 'a' <= c <= 'z' then UpperValue((c as int - 32) as char)
    else if 'A' <= c <= 'Z' then UpperValue(c)
    else if c == '-' then 32 else if c == '/' then 33 else if c == '=' then 34 else if c == '_' then 36
    else 64
  }

  function UpperValue(c: char): (v: nat)
    requires 'A' <= c <= 'Z'
    ensures v < 32 || v == 64
  {
    if c <= 'H' then c as int - 'A' as int + 10
    else if c == 'I' || c == 'L' then 1
    else if c <= 'K' then c as int - 'J' as int + 18
    else if c <= 'N' then c as int - 'M' as int + 20
    else if c == 'O' then 0
    else if c <= 'T' then c as int - 'P' as int + 22
    else if c == 'U' then 64
    else c as int - 'V' as int + 27
  }

  lemma ValueOfSymbol(d: nat, a: Alphabet)
    requires d < 32
    ensures ValueOf(SymbolOf(d, a), a) == d
    ensures SymbolOf(d, a) != NUL && SymbolOf(d, a) != '='
  {
  }

  // The two alphabets: the capitals and then 2 to 7, or the digits and the
  // capitals but I, L, O and U in the order of their codes.
  lemma AlphabetsAre(d: nat, e: nat)
    requires d < 32 && e < 32
    ensures SymbolOf(d, Standard) == "ABCDEFGHIJKLMNOPQRSTUVWXYZ234567"[d]
    ensures d < e ==> SymbolOf(d, Crockford) < SymbolOf(e, Crockford)
    ensures '0' <= SymbolOf(d, Crockford) <= '9'
              || ('A' <= SymbolOf(d, Crockford) <= 'Z' && SymbolOf(d, Crockford) !in "ILOU")
  {
  }

  // How the readers take the other characters: letters of either case, and in
  // Crockford's alphabet the look-alikes of 0 and 1.
  lemma ReadersAre(c: char)
    ensures 'a' <= c <= 'z' ==> forall a :: ValueOf(c, a) == ValueOf((c as int - 32) as char, a)
    ensures ValueOf('O', Crockford) == 0 && ValueOf('I', Crockford) == ValueOf('L', Crockford) == 1
    ensures ValueOf(c, Crockford) == 64 <==>
              !('0' <= c <= '9') && !('a' <= c <= 'z' && c != 'u') && !('A' <= c <= 'Z' && c != 'U') && c !in "-/=_"
    ensures ValueOf(c, Standard) == 64 <==> !('2' <= c <= '7') && !('a' <= c <= 'z') && !('A' <= c <= 'Z')
    ensures ValueOf('-', Crockford) == 32 && ValueOf('/', Crockford) == 33 && ValueOf('=', Crockford) == 34
    ensures ValueOf('_', Crockford) == 36
  {
  }

  ghost function Text(o: seq<nat>, a: Alphabet): (t: string)
    requires Digits(o, 32)
    ensures |t| == |o| && forall i :: 0 <= i < |o| ==> t[i] == SymbolOf(o[i], a)
  {
    seq(|o|, i requires 0 <= i < |o| => SymbolOf(o[i], a))
  }

  lemma FiveBits()
    ensures Two(5) == 32 && Two(8) == 256
  {
    PowersOfTwo(0, 0);
  }

  lemma PaddedIsFives(s: seq<Byte>)
    ensures Digits(Padded(s, 8, 5), 32) && |Padded(s, 8, 5)| == (|s| * 8 + 4) / 5
  {
    CutPadded(s);
  }

  // --------------------------------------------------------------- encoding

  // The symbols of o have been written.
  ghost predicate Written(dest: seq<char>, o: seq<nat>, a: Alphabet) {
    Digits(o, 32) && |o| <= |dest| && dest[..|o|] == Text(o, a)
  }

  // Shifts a byte in and writes the symbols that are complete.
  method FeedByte(dest: array<char>, x: Byte, j: nat, buffer: nat, bitsLeft: nat, a: Alphabet,
           ghost o: seq<nat>, ghost i: seq<nat>)
    returns (j': nat, buffer': nat, bitsLeft': nat, ghost o': seq<nat>)
    requires buffer < B && bitsLeft < 5 && j == |o| && j + 2 < dest.Length && Written(dest[..], o, a)
    requires Pending(o, 5, buffer, bitsLeft, Value(i, 256))
    modifies dest
    ensures buffer' < B && bitsLeft' < 5 && j' == |o'| <= j + 2 && j' * 5 + bitsLeft' == j * 5 + bitsLeft + 8
    ensures Written(dest[..], o', a) && Pending(o', 5, buffer', bitsLeft', Value(i + [x], 256))
  {
    hide Pending, Value, Pow, BitAnd, BitOr, Two, SymbolOf, Text;
    FiveBits();
    PendingIn(o, 5, buffer, bitsLeft, i, x, 8);
    j', o' := j, o;
    buffer' := BitOr((buffer * Two(8)) % B, x);
    bitsLeft' := bitsLeft + 8;
    while bitsLeft' >= 5
      invariant 0 <= bitsLeft' && j <= j' == |o'| && j' * 5 + bitsLeft' == j * 5 + bitsLeft + 8
      invariant Written(dest[..], o', a) && Pending(o', 5, buffer', bitsLeft', Value(i + [x], 256))
    {
      PendingOut(o', 5, buffer', bitsLeft', Value(i + [x], 256));
      var d := BitAnd(buffer' / Two(bitsLeft' - 5), Two(5) - 1);
      PendingDigits(o' + [d], 5, buffer', bitsLeft' - 5, Value(i + [x], 256));
      LastDigit(o', d);
      WriteSymbol(dest, j', d, a, o');
      o' := o' + [d];
      j' := j' + 1;
      bitsLeft' := bitsLeft' - 5;
    }
  }

  lemma PendingDigits(o: seq<nat>, k: nat, val: nat, bits: nat, total: nat)
    requires Pending(o, k, val, bits, total)
    ensures Digits(o, Two(k))
  {
  }

  lemma LastDigit(o: seq<nat>, d: nat)
    requires Digits(o + [d], 32)
    ensures d < 32 && Digits(o, 32)
  {
    assert (o + [d])[|o|] == d;
    assert forall i :: 0 <= i < |o| ==> (o + [d])[i] == o[i];
  }

  method WriteSymbol(dest: array<char>, j: nat, d: nat, a: Alphabet, ghost o: seq<nat>)
    requires d < 32 && j == |o| < dest.Length && Written(dest[..], o, a)
    modifies dest
    ensures Written(dest[..], o + [d], a)
  {
    hide SymbolOf;
    ghost var before := dest[..j];
    dest[j] := SymbolOf(d, a);
    assert dest[..j] == before;
    assert Text(o + [d], a) == Text(o, a) + [SymbolOf(d, a)];
    assert dest[..j + 1] == dest[..j] + [dest[j]];
  }

  // The last symbol, filled up with zero bits.
  method FeedEnd(dest: array<char>, j: nat, buffer: nat, bitsLeft: nat, a: Alphabet, ghost o: seq<nat>,
           ghost i: seq<Byte>)
    returns (j': nat)
    requires buffer < B && bitsLeft < 5 && j == |o| < dest.Length && Written(dest[..], o, a)
    requires Pending(o, 5, buffer, bitsLeft, Value(i, 256)) && j * 5 + bitsLeft == |i| * 8
    modifies dest
    ensures j' == |Padded(i, 8, 5)| <= j + 1 && Written(dest[..], Padded(i, 8, 5), a)
  {
    hide Pending, Value, Pow, BitAnd, BitOr, Two, SymbolOf, Text, Padded;
    FiveBits();
    PaddedIsFives(i);
    j' := j;
    if bitsLeft > 0 {
      PaddedIs(o, i, 8, 5, buffer, bitsLeft);
      LeftOver(buffer, bitsLeft, 5);
      var d := BitAnd((buffer * Two(5 - bitsLeft)) % B, Two(5) - 1);
      LastDigit(o, d);
      WriteSymbol(dest, j, d, a, o);
      j' := j + 1;
    } else {
      ExactlyFull(o, i, 8, 5, buffer);
    }
  }

  lemma StartWritten(dest: seq<char>, a: Alphabet)
    ensures Written(dest, [], a) && Pending([], 5, 0, 0, Value([], 256)) && Value([], 256) == 0
  {
  }

  // Room for the symbols of the bytes that are left.
  lemma SymbolRoom(j: nat, bitsLeft: nat, i: nat, len: nat)
    requires j * 5 + bitsLeft == i * 8 && i < len
    ensures j + 2 < (len + 4) / 5 * 8 + 1
  {
  }

  lemma EndRoom(j: nat, bitsLeft: nat, len: nat)
    requires j * 5 + bitsLeft == len * 8
    ensures j < (len + 4) / 5 * 8 + 1 && (len * 8 + 4) / 5 <= (len + 4) / 5 * 8
  {
  }

  // b32encode: the symbols, '=' up to a multiple of eight, and a NUL. The
  // original keeps its accumulator in a signed int; only its low twelve bits
  // are ever read.
  method Encode(dest: array<char>, src: array<Byte>, len: nat) returns (written: nat)
    requires len <= src.Length && (len + 4) / 5 * 8 + 1 <= dest.Length
    modifies dest
    ensures written == (len + 4) / 5 * 8 + 1
    ensures dest[..written] == Encoded(src[..len]) + [NUL]
  {
    hide Text, Padded;
    var j := EncodeSymbols(dest, src, len);
    PaddedIsFives(src[..len]);
    PaddedLength(len, j);
    j := PadUp(dest, j, (len + 4) / 5 * 8);
    ghost var text := dest[..j];
    dest[j] := NUL;
    assert dest[..j + 1] == text + [NUL];
    written := j + 1;
  }

  method EncodeSymbols(dest: array<char>, src: array<Byte>, len: nat) returns (j: nat)
    requires len <= src.Length && (len + 4) / 5 * 8 + 1 <= dest.Length
    modifies dest
    ensures Digits(Padded(src[..len], 8, 5), 32)
    ensures j == |Padded(src[..len], 8, 5)| <= dest.Length && dest[..j] == Text(Padded(src[..len], 8, 5), Standard)
  {
    hide Pending, Value, Text, Padded, Written;
    var buffer, bitsLeft, i := 0, 0, 0;
    j := 0;
    ghost var o: seq<nat> := [];
    StartWritten(dest[..], Standard);
    assert src[..0] == [];
    while i < len
      invariant 0 <= i <= len && 0 <= buffer < B && 0 <= bitsLeft < 5 && 0 <= j == |o| && j * 5 + bitsLeft == i * 8
      invariant Written(dest[..], o, Standard) && Pending(o, 5, buffer, bitsLeft, Value(src[..i], 256))
    {
      SymbolRoom(j, bitsLeft, i, len);
      assert src[..i + 1] == src[..i] + [src[i]];
      j, buffer, bitsLeft, o := FeedByte(dest, src[i], j, buffer, bitsLeft, Standard, o, src[..i]);
      i := i + 1;
    }
    EndRoom(j, bitsLeft, len);
    j := FeedEnd(dest, j, buffer, bitsLeft, Standard, o, src[..len]);
    WrittenText(dest[..], Padded(src[..len], 8, 5), Standard);
  }

  // '=' up to the next multiple of eight.
  method PadUp(dest: array<char>, start: nat, end: nat) returns (j: nat)
    requires start <= end < start + 8 && end % 8 == 0 && end < dest.Length
    modifies dest
    ensures j == end && dest[..j] == old(dest[..start]) + Signs(end - start)
  {
    j := start;
    while j % 8 != 0
      invariant start <= j <= end
      invariant dest[..j] == old(dest[..start]) + Signs(j - start)
      decreases end - j
    {
      ghost var before := dest[..j];
      dest[j] := '=';
      j := j + 1;
      assert dest[..j] == before + ['='];
      assert Signs(j - start) == Signs(j - start - 1) + ['='];
    }
  }

  function Signs(n: nat): (t: string)
    ensures |t| == n && forall i :: 0 <= i < n ==> t[i] == '='
  {
    seq(n, _ => '=')
  }

  lemma WrittenText(dest: seq<char>, o: seq<nat>, a: Alphabet)
    requires Written(dest, o, a)
    ensures |o| <= |dest| && Digits(o, 32) && dest[..|o|] == Text(o, a)
  {
  }

  // The padded length is the next multiple of eight.
  lemma PaddedLength(len: nat, j: nat)
    requires j == (len * 8 + 4) / 5
    ensures j <= (len + 4) / 5 * 8 < j + 8
  {
  }

  ghost function Encoded(s: seq<Byte>): (t: string)
    ensures |t| == (|s| + 4) / 5 * 8
  {
    PaddedIsFives(s);
    PaddedLength(|s|, |Padded(s, 8, 5)|);
    Text(Padded(s, 8, 5), Standard) + Signs((|s| + 4) / 5 * 8 - |Padded(s, 8, 5)|)
  }

  // The 37 check symbols: the alphabet, then *~$=U.
  function CheckSymbol(d: nat): char
    requires d < 37
  {
    if d < 32 then SymbolOf(d, Crockford)
    else if d == 32 then '*' else if d == 33 then '~' else if d == 34 then '$' else if d == 35 then '=' else 'U'
  }

  // Values below 32 have their own symbol, the other five * ~ $ = and U.
  lemma CheckSymbolsAre(d: nat)
    requires d < 37
    ensures d < 32 ==> CheckSymbol(d) == SymbolOf(d, Crockford)
    ensures d >= 32 ==> CheckSymbol(d) == "*~$=U"[d - 32]
  {
  }

  ghost function CrockfordText(s: seq<Byte>): string {
    PaddedIsFives(s);
    Text(Padded(s, 8, 5), Crockford)
  }

  // b32crockford_encode: the check symbol, when asked for, is the one of the
  // whole big-endian value modulo 37, although only a running remainder is kept.
  method CrockfordEncode(dest: array<char>, src: array<Byte>, len: nat, withChecksum: bool) returns (j: nat)
    requires len <= src.Length && (len + 4) / 5 * 8 + 2 <= dest.Length
    modifies dest
    ensures Value(src[..len], 256) % 37 >= 0
    ensures j < dest.Length && dest[j] == NUL
    ensures dest[..j] == CrockfordText(src[..len])
                         + if withChecksum then [CheckSymbol(Value(src[..len], 256) % 37)] else []
  {
    hide Pending, Value, Pow, BitAnd, BitOr, Two, SymbolOf, Text, Padded, Written, CheckSymbol;
    var buffer, bitsLeft, i := 0, 0, 0;
    var total: nat := 0;
    j := 0;
    ghost var o: seq<nat> := [];
    StartWritten(dest[..], Crockford);
    assert src[..0] == [];
    while i < len
      invariant 0 <= i <= len && 0 <= buffer < B && 0 <= bitsLeft < 5 && j == |o| && j * 5 + bitsLeft == i * 8
      invariant Written(dest[..], o, Crockford) && Pending(o, 5, buffer, bitsLeft, Value(src[..i], 256))
      invariant 0 <= total == Value(src[..i], 256) % 37
    {
      SymbolRoom(j, bitsLeft, i, len);
      assert src[..i + 1] == src[..i] + [src[i]];
      ValueSnoc(src[..i], src[i], 256);
      Horner(Value(src[..i], 256), src[i]);
      total := (total * 256 + src[i]) % 37;
      j, buffer, bitsLeft, o := FeedByte(dest, src[i], j, buffer, bitsLeft, Crockford, o, src[..i]);
      i := i + 1;
    }
    EndRoom(j, bitsLeft, len);
    ghost var s := src[..len];
    j := FeedEnd(dest, j, buffer, bitsLeft, Crockford, o, s);
    WrittenText(dest[..], Padded(s, 8, 5), Crockford);
    PaddedIsFives(s);
    j := PutCheck(dest, j, total, withChecksum);
  }

  method PutCheck(dest: array<char>, start: nat, total: nat, withChecksum: bool) returns (j: nat)
    requires start + 1 < dest.Length && total < 37
    modifies dest
    ensures j < dest.Length && dest[j] == NUL
    ensures dest[..j] == old(dest[..start]) + if withChecksum then [CheckSymbol(total)] else []
  {
    j := start;
    ghost var text := dest[..j];
    if withChecksum {
      dest[j] := CheckSymbol(total % 37);
      j := j + 1;
      assert dest[..j] == text + [CheckSymbol(total)];
    }
    ghost var all := dest[..j];
    dest[j] := NUL;
    assert dest[..j] == all;
  }

  lemma Horner(v: nat, x: nat)
    ensures ((v % 37) * 256 + x) % 37 == (256 * v + x) % 37
  {
    DivMod(v, 37);
    ModShift(256 * v + x, (v % 37) * 256 + x, 256 * (v / 37), 37);
  }

  // --------------------------------------------------------------- decoding

  // What the Base32 reader takes: the symbols before the first '=', anything
  // else skipped.
  function Symbols(s: string): (o: seq<nat>)
    ensures Digits(o, 32)
  {
    if s == [] then []
    else
      var o, c := Symbols(s[..|s| - 1]), s[|s| - 1];
      if '=' in s || ValueOf(c, Standard) == 64 then o else o + [ValueOf(c, Standard)]
  }

  // The accumulator, had it room for everything: each value is shifted in and
  // or-ed to what is there, so one of 32 or more also touches its neighbour.
  function Acc(v: seq<nat>): nat {
    if v == [] then 0 else BitOr(32 * Acc(v[..|v| - 1]), v[|v| - 1])
  }

  // How many values there have to be for the k-th byte.
  function Need(k: nat): (n: nat)
    ensures 8 * (k + 1) <= 5 * n < 8 * (k + 1) + 5
  {
    (8 * k + 12) / 5
  }

  // The bytes decoded from table values: each is read off the accumulator as
  // soon as its eight bits are there.
  function Spread(v: seq<nat>): (o: seq<nat>)
    ensures |o| == 5 * |v| / 8
  {
    seq(5 * |v| / 8, k requires 0 <= k < 5 * |v| / 8 => ByteAt(v[..Need(k)], 5 * Need(k) - 8 * (k + 1)))
  }

  function ByteAt(v: seq<nat>, bits: nat): nat {
    QuotientIsNat(Acc(v), Two(bits));
    (Acc(v) / Two(bits)) % 256
  }

  // A 32-bit accumulator has all that is needed.
  ghost predicate Fed(v: seq<nat>, o: seq<nat>, buffer: nat, bits: nat) {
    buffer == Acc(v) % B && o == Spread(v) && bits == 5 * |v| % 8
  }

  lemma StartFed()
    ensures Fed([], [], 0, 0)
  {
  }

  lemma FedStep(v: seq<nat>, x: nat, o: seq<nat>, buffer: nat, bits: nat)
    requires Fed(v, o, buffer, bits) && x < 64
    ensures 0 <= buffer * Two(5)
    ensures var buffer' := BitOr((buffer * Two(5)) % B, x);
            && buffer' < B
            && (bits < 3 ==> Fed(v + [x], o, buffer', bits + 5))
            && (bits >= 3 ==> 0 <= buffer' / Two(bits - 3)
                              && Fed(v + [x], o + [(buffer' / Two(bits - 3)) % 256], buffer', bits - 3))
  {
    hide Acc, BitOr, Two, ByteAt, Spread;
    FiveBits();
    AccStep(v, x, buffer);
    SpreadStep(v, x);
    if bits >= 3 { WrappedByte(v + [x], bits - 3); }
  }

  lemma SpreadStep(v: seq<nat>, x: nat)
    ensures var bits := 5 * |v| % 8;
            && (bits < 3 ==> 5 * |v + [x]| % 8 == bits + 5 && Spread(v + [x]) == Spread(v))
            && (bits >= 3 ==> 5 * |v + [x]| % 8 == bits - 3
                              && Spread(v + [x]) == Spread(v) + [ByteAt(v + [x], bits - 3)])
  {
    hide ByteAt, Need;
    var w, n, k := v + [x], |v|, 5 * |v| / 8;
    assert forall i :: 0 <= i < k ==> Need(i) <= n && w[..Need(i)] == v[..Need(i)];
    assert forall i :: 0 <= i < k ==> Spread(w)[i] == Spread(v)[i];
    if 5 * n % 8 >= 3 {
      assert Need(k) == n + 1 && w[..n + 1] == w;
    }
  }

  lemma AccStep(v: seq<nat>, x: nat, buffer: nat)
    requires buffer == Acc(v) % B && x < 64
    ensures 0 <= buffer * 32 && BitOr((buffer * 32) % B, x) == Acc(v + [x]) % B
  {
    hide BitOr;
    assert (v + [x])[..|v|] == v;
    ModMul(Acc(v), 32, B);
    Pow2At32();
    OrWraps(32 * Acc(v), x, 32);
  }

  lemma WrappedByte(w: seq<nat>, bits: nat)
    requires bits < 5
    ensures 0 <= (Acc(w) % B) / Two(bits)
    ensures ((Acc(w) % B) / Two(bits)) % 256 == ByteAt(w, bits)
  {
    hide Acc, Pow;
    QuotientIsNat(Acc(w) % B, Two(bits));
    QuotientIsNat(Acc(w), Two(bits));
    Pow2At8();
    Pow2At32();
    TwoAdd(bits, 8);
    TwoAdd(24 - bits, bits + 8);
    WrappedDigit(Acc(w), Two(24 - bits), Two(bits), 256);
  }

  // Dropping high bits does not change a digit below them.
  lemma WrappedDigit(v: nat, w: int, p: int, q: int)
    requires w > 0 && p > 0 && q > 0 && w * (p * q) == B
    ensures ((v % B) / p) % q == (v / p) % q
  {
    MulLe(1, q, p);
    DivMod(v, B);
    NestedMod(v, w, p * q);
    SplitMod(v, p, q);
    SplitMod(v % B, p, q);
    NestedMod(v % B, q, p);
    NestedMod(v, q, p);
    assert q * p == p * q;
    SameFactor(((v % B) / p) % q, (v / p) % q, p);
  }

  lemma SameFactor(a: int, b: int, p: int)
    requires p > 0 && a * p == b * p
    ensures a == b
  {
    if a < b { MulLe(a + 1, b, p); }
    if b < a { MulLe(b + 1, a, p); }
  }

  lemma FedUnique(v: seq<nat>, o: seq<nat>, buffer: nat, bits: nat, o': seq<nat>, buffer': nat, bits': nat)
    requires Fed(v, o, buffer, bits) && Fed(v, o', buffer', bits')
    ensures o == o' && buffer == buffer' && bits == bits'
  {
  }

  lemma SomeFed(v: seq<nat>) returns (buffer: nat, bits: nat)
    ensures Fed(v, Spread(v), buffer, bits)
  {
    buffer, bits := Acc(v) % B, 5 * |v| % 8;
  }

  lemma FedSize(v: seq<nat>, o: seq<nat>, buffer: nat, bits: nat)
    requires Fed(v, o, buffer, bits)
    ensures o == Spread(v) && buffer < B && bits < 8 && |o| * 8 + bits == |v| * 5
  {
  }

  // Without the values above the alphabet the bytes are the cut of the bits.
  lemma FedSymbols(v: seq<nat>, o: seq<nat>, buffer: nat, bits: nat)
    requires Fed(v, o, buffer, bits) && Digits(v, 32)
    ensures o == Cut(v, 5, 8)
  {
    hide Pending, Value, Cut, CutIsPadding, Fed;
    FedPending(v, o, buffer, bits);
    FedSize(v, o, buffer, bits);
    FiveBits();
    CutIs(o, v, 5, 8, buffer, bits);
  }

  lemma {:induction false} FedPending(v: seq<nat>, o: seq<nat>, buffer: nat, bits: nat)
    requires Digits(v, 32) && Fed(v, o, buffer, bits)
    ensures Pending(o, 8, buffer, bits, Value(v, 32))
    decreases |v|
  {
    hide Pending, Value, Two, BitOr, Spread, Fed;
    if v == [] {
      StartFed();
      FedUnique(v, o, buffer, bits, [], 0, 0);
      StartPending();
    } else {
      var u, x := v[..|v| - 1], v[|v| - 1];
      assert u + [x] == v;
      var b, n := SomeFed(u);
      FedPending(u, Spread(u), b, n);
      FedSize(u, Spread(u), b, n);
      FedStep(u, x, Spread(u), b, n);
      SymbolPending(Spread(u), b, n, u, x);
      var b' := BitOr((b * Two(5)) % B, x);
      if n < 3 {
        FedUnique(v, o, buffer, bits, Spread(u), b', n + 5);
      } else {
        FedUnique(v, o, buffer, bits, Spread(u) + [(b' / Two(n - 3)) % 256], b', n - 3);
      }
    }
  }

  lemma SpreadIsCut(v: seq<nat>)
    requires Digits(v, 32)
    ensures Spread(v) == Cut(v, 5, 8)
  {
    hide Fed, Cut, Spread;
    var buffer, bits := SomeFed(v);
    FedSymbols(v, Spread(v), buffer, bits);
  }

  lemma SymbolPending(o: seq<nat>, buffer: nat, bits: nat, i: seq<nat>, x: nat)
    requires buffer < B && bits < 8 && x < 32 && Pending(o, 8, buffer, bits, Value(i, 32))
    ensures 0 <= buffer * Two(5)
    ensures var buffer' := BitOr((buffer * Two(5)) % B, x);
            && (bits < 3 ==> Pending(o, 8, buffer', bits + 5, Value(i + [x], 32)))
            && (bits >= 3 ==> 0 <= buffer' / Two(bits - 3)
                              && Pending(o + [(buffer' / Two(bits - 3)) % 256], 8, buffer', bits - 3,
                                         Value(i + [x], 32)))
  {
    hide Pending, Value, Two, BitOr, BitAnd;
    FiveBits();
    PendingIn(o, 8, buffer, bits, i, x, 5);
    if bits >= 3 {
      var buffer' := BitOr((buffer * Two(5)) % B, x);
      PendingOut(o, 8, buffer', bits + 5, Value(i + [x], 32));
      TakeOut(buffer', bits - 3, 8);
    }
  }

  // Shifts a table value in and writes the byte that is complete, if one is.
  method FeedValue(dest: array<Byte>, x: nat, j: nat, buffer: nat, bitsLeft: nat, ghost v: seq<nat>)
    returns (j': nat, buffer': nat, bitsLeft': nat)
    requires x < 64 && j < dest.Length && Fed(v, dest[..j], buffer, bitsLeft)
    modifies dest
    ensures buffer' < B && bitsLeft' < 8 && j <= j' <= dest.Length && j' * 8 + bitsLeft' == j * 8 + bitsLeft + 5
    ensures Fed(v + [x], dest[..j'], buffer', bitsLeft')
  {
    hide Acc, Spread, BitOr, BitAnd, Two;
    ghost var before := dest[..j];
    FedStep(v, x, before, buffer, bitsLeft);
    j' := j;
    buffer' := BitOr((buffer * Two(5)) % B, x);
    bitsLeft' := bitsLeft + 5;
    if bitsLeft' >= 8 {
      bitsLeft' := bitsLeft' - 8;
      OneByte(buffer', bitsLeft');
      dest[j] := BitAnd(buffer' / Two(bitsLeft'), Two(8) - 1);
      j' := j + 1;
      assert dest[..j'] == before + [dest[j]];
    } else {
      assert dest[..j'] == before;
    }
  }

  lemma OneByte(v: nat, n: nat)
    ensures 0 <= v / Two(n) && 0 <= BitAnd(v / Two(n), Two(8) - 1) == (v / Two(n)) % 256 < 256
  {
    hide BitAnd, Two, Pow;
    QuotientIsNat(v, Two(n));
    ByteIsPower();
    AndOnes(v / Two(n), 8);
  }

  lemma ByteIsPower()
    ensures Two(8) == Pow(2, 8) == 256
  {
    Pow2At8();
  }

  lemma StartPending()
    ensures Pending([], 8, 0, 0, Value([], 32))
  {
  }

  lemma ByteRoom(j: nat, bitsLeft: nat, n: nat, m: nat, length: nat)
    requires j * 8 + bitsLeft == n * 5 && n <= m && m < length
    ensures j <= length * 5 / 8 && j < length
  {
  }

  lemma SymbolsStep(s: string, n: nat)
    requires n < |s| && '=' !in s[..n]
    ensures Symbols(s[..n + 1]) ==
              if s[n] == '=' || ValueOf(s[n], Standard) == 64 then Symbols(s[..n])
                        else Symbols(s[..n]) + [ValueOf(s[n], Standard)]
  {
    assert s[..n + 1][..n] == s[..n] && s[..n + 1] == s[..n] + [s[n]];
  }

  lemma {:induction false} AfterSign(s: string, n: nat)
    requires n <= |s| && '=' in s[..n]
    ensures Symbols(s) == Symbols(s[..n])
  {
    if n < |s| {
      assert s[..|s| - 1][..n] == s[..n];
      AfterSign(s[..|s| - 1], n);
      assert '=' in s by { var k :| 0 <= k < n && s[..n][k] == '='; assert s[k] == '='; }
    } else {
      assert s[..n] == s;
    }
  }

  // b32decode: the bits of the symbols cut to bytes; what is left over is
  // dropped.
  method Decode(dest: array<Byte>, src: array<char>) returns (j: nat)
    requires NUL in src[..] && |UpToNul(src[..])| <= dest.Length
    modifies dest
    ensures j <= dest.Length && dest[..j] == Cut(Symbols(UpToNul(src[..])), 5, 8)
  {
    hide Fed, ValueOf, Symbols, UpToNul, Cut;
    ghost var s := UpToNul(src[..]);
    UpToNulIs(src[..]);
    var i, buffer, bitsLeft := 0, 0, 0;
    j := 0;
    StartFed();
    assert dest[..0] == [];
    NoSymbols(s);
    while src[i] != NUL
      invariant 0 <= i <= |s| < src.Length && '=' !in s[..i] && s == src[..|s|] && src[|s|] == NUL
      invariant forall k :: 0 <= k < |s| ==> s[k] != NUL
      invariant 0 <= buffer < B && 0 <= bitsLeft < 8 && j <= dest.Length
      invariant j * 8 + bitsLeft == |Symbols(s[..i])| * 5 && |Symbols(s[..i])| <= i
      invariant Fed(Symbols(s[..i]), dest[..j], buffer, bitsLeft)
      decreases src.Length - i
    {
      assert src[i] == s[i];
      SymbolsStep(s, i);
      assert s[..i + 1] == s[..i] + [s[i]];
      if src[i] == '=' {
        AfterSign(s, i + 1);
        FedSymbols(Symbols(s), dest[..j], buffer, bitsLeft);
        return;
      }
      var val := ValueOf(src[i], Standard);
      if val == 64 {
        i := i + 1;
        continue;
      }
      ByteRoom(j, bitsLeft, |Symbols(s[..i])|, i, dest.Length);
      j, buffer, bitsLeft := FeedValue(dest, val, j, buffer, bitsLeft, Symbols(s[..i]));
      i := i + 1;
    }
    assert s[..i] == s;
    FedSymbols(Symbols(s), dest[..j], buffer, bitsLeft);
  }

  lemma NoSymbols(s: string)
    ensures Symbols(s[..0]) == []
  {
  }

  lemma {:induction false} SymbolsOfText(o: seq<nat>, n: nat, k: nat)
    requires Digits(o, 32) && n <= |o| && (k == 0 || n == |o|)
    ensures Symbols(Text(o, Standard)[..n] + Signs(k)) == o[..n]
    ensures k == 0 ==> '=' !in Text(o, Standard)[..n]
    decreases n, k
  {
    hide ValueOf, SymbolOf;
    var t := Text(o, Standard);
    if k > 0 {
      SymbolsOfText(o, n, k - 1);
      assert t[..n] + Signs(k) == (t[..n] + Signs(k - 1)) + ['='];
      assert (t[..n] + Signs(k))[..n + k - 1] == t[..n] + Signs(k - 1);
    } else if n > 0 {
      SymbolsOfText(o, n - 1, 0);
      ValueOfSymbol(o[n - 1], Standard);
      assert t[..n] + Signs(0) == (t[..n - 1] + Signs(0)) + [t[n - 1]];
      assert (t[..n] + Signs(0))[..n - 1] == t[..n - 1] + Signs(0);
      assert t[..n] == t[..n - 1] + [t[n - 1]];
    }
  }

  // Decoding undoes encoding, whatever the length.
  lemma RoundTrip(s: seq<Byte>)
    ensures Cut(Symbols(Encoded(s)), 5, 8) == s
  {
    hide Padded, Cut, CutIsPadding, Symbols, Text;
    var o := Padded(s, 8, 5);
    PaddedIsFives(s);
    SymbolsOfText(o, |o|, |Encoded(s)| - |o|);
    assert Text(o, Standard)[..|o|] == Text(o, Standard) && o[..|o|] == o;
    CutPadded(s);
  }

  ghost predicate AllSymbols(s: string) {
    forall i :: 0 <= i < |s| ==> ValueOf(s[i], Crockford) < 32
  }

  function CrockfordValues(s: string): (o: seq<nat>)
    ensures |o| == |s| && forall i :: 0 <= i < |s| ==> o[i] == ValueOf(s[i], Crockford)
  {
    seq(|s|, i requires 0 <= i < |s| => ValueOf(s[i], Crockford))
  }

  // The part that is decoded: all but the check symbol.
  function Body(s: string, withChecksum: bool): string {
    if withChecksum && s != [] then s[..|s| - 1] else s
  }

  // b32crockford_decode: -1 for a character the table does not know, the bytes
  // of the table values otherwise.
  method CrockfordDecode(dest: array<Byte>, src: array<char>, withChecksum: bool) returns (j: int)
    requires NUL in src[..] && |UpToNul(src[..])| <= dest.Length
    modifies dest
    ensures j == -1 <==> exists i :: 0 <= i < |Body(UpToNul(src[..]), withChecksum)|
                                     && ValueOf(Body(UpToNul(src[..]), withChecksum)[i], Crockford) == 64
    ensures j != -1 ==> 0 <= j <= dest.Length
                        && dest[..j] == Spread(CrockfordValues(Body(UpToNul(src[..]), withChecksum)))
    ensures AllSymbols(Body(UpToNul(src[..]), withChecksum)) ==>
              j != -1 && dest[..j] == Cut(CrockfordValues(Body(UpToNul(src[..]), withChecksum)), 5, 8)
  {
    hide UpToNul, Cut, ValueOf, Spread;
    var len := Length(src);
    if withChecksum && len > 0 {
      len := len - 1;
    }
    assert Body(UpToNul(src[..]), withChecksum) == src[..len];
    j := DecodeBody(dest, src, len);
    if AllSymbols(src[..len]) { SpreadIsCut(CrockfordValues(src[..len])); }
  }

  method DecodeBody(dest: array<Byte>, src: array<char>, len: nat) returns (j: int)
    requires len <= src.Length && len <= dest.Length
    modifies dest
    ensures j == -1 <==> exists i :: 0 <= i < len && ValueOf(src[..len][i], Crockford) == 64
    ensures j != -1 ==> 0 <= j <= dest.Length && dest[..j] == Spread(CrockfordValues(src[..len]))
  {
    hide ValueOf, Fed;
    ghost var s := src[..len];
    var buffer, bitsLeft, i := 0, 0, 0;
    j := 0;
    StartFed();
    assert dest[..0] == [] && s[..0] == [];
    while i < len
      invariant 0 <= i <= len && 0 <= buffer && 0 <= bitsLeft < 8 && 0 <= j <= dest.Length
      invariant j * 8 + bitsLeft == i * 5
      invariant forall k :: 0 <= k < i ==> ValueOf(s[k], Crockford) < 64
      invariant Fed(CrockfordValues(s[..i]), dest[..j], buffer, bitsLeft)
    {
      var val := ValueOf(src[i], Crockford);
      assert s[i] == src[i];
      if val == 64 {
        assert ValueOf(src[..len][i], Crockford) == 64;
        return -1;
      }
      ByteRoom(j, bitsLeft, i, len, len + 1);
      ByteRoom(j, bitsLeft, i, i, dest.Length);
      ghost var v := CrockfordValues(s[..i]);
      j, buffer, bitsLeft := FeedValue(dest, val, j, buffer, bitsLeft, v);
      assert CrockfordValues(s[..i + 1]) == v + [val];
      i := i + 1;
    }
    assert s[..i] == s;
    FedSize(CrockfordValues(s), dest[..j], buffer, bitsLeft);
  }

  // Crockford's decoder undoes the encoder, with or without check symbol.
  lemma CrockfordRoundTrip(s: seq<Byte>, withChecksum: bool, t: string)
    requires t == CrockfordText(s) + if withChecksum then [CheckSymbol(Value(s, 256) % 37)] else []
    ensures AllSymbols(Body(t, withChecksum)) && Cut(CrockfordValues(Body(t, withChecksum)), 5, 8) == s
  {
    hide Padded, Cut, CutIsPadding, SymbolOf, ValueOf, CheckSymbol, Value;
    var o := Padded(s, 8, 5);
    PaddedIsFives(s);
    assert Body(t, withChecksum) == CrockfordText(s);
    forall i | 0 <= i < |o| ensures ValueOf(Text(o, Crockford)[i], Crockford) == o[i] {
      ValueOfSymbol(o[i], Crockford);
    }
    assert CrockfordValues(CrockfordText(s)) == o;
    CutPadded(s);
  }

  // The letter f in both alphabets.
  lemma KnownAnswers()
    ensures Encoded([0x66]) == "MY======"
    ensures CrockfordText([0x66]) == "CR"
  {
    hide Padded, SymbolOf;
    PaddedF();
    assert SymbolOf(12, Standard) == 'M' && SymbolOf(24, Standard) == 'Y' by { TwoSymbols(); }
    assert SymbolOf(12, Crockford) == 'C' && SymbolOf(24, Crockford) == 'R' by { TwoSymbols(); }
    assert Text([12, 24], Standard) == "MY" && Text([12, 24], Crockford) == "CR";
    assert "MY" + Signs(6) == "MY======";
  }

  lemma TwoSymbols()
    ensures SymbolOf(12, Standard) == 'M' && SymbolOf(24, Standard) == 'Y'
    ensures SymbolOf(12, Crockford) == 'C' && SymbolOf(24, Crockford) == 'R'
  {
  }

  lemma PaddedF()
    ensures Padded([0x66], 8, 5) == [12, 24]
  {
    hide Value;
    var b: seq<nat> := [0x66];
    ValueSnoc([], 0x66, 256);
    ValueZero([], 256);
    assert [] + [0x66] == b;
    assert Two(2) == 4;
    FiveBits();
    assert Fixed(12, 32, 1) == [12];
    assert Fixed(408, 32, 2) == Fixed(12, 32, 1) + [24];
  }
}
