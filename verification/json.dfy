/** Cutting the first JSON value off a text, after lua_unserialize_json of
    zen_parse.c. */
module Json {

  datatype Option<T> = None | Some(value: T)

  datatype Result<T> = Ok(value: T) | Err(error: Report)

  // The two errors: a closing bracket that is not the one owed, counting
  // places from 1, and a text that ends too early.
  datatype Report = Mismatch(expected: char, found: char, pos: nat) | Truncated(size: nat, level: nat)

  const MAX_DEPTH := 128

  // isspace in the C locale.
  predicate IsSpace(c: char) {
    c == ' ' || 9 as char <= c <= 13 as char
  }

  predicate IsEscape(c: char) {
    c == 'n' || c == 'r' || c == 't'
  }

  predicate Opens(c: char) {
    c == '{' || c == '['
  }

  predicate Closes(c: char) {
    c == '}' || c == ']'
  }

  function CloserOf(c: char): char {
    if c == '{' then '}' else ']'
  }

  // How many characters of blanks, a literal \n, \r or \t among them, a text
  // starts with.
  function Blanks(s: string): (n: nat)
    ensures n <= |s|
  {
    if s == [] then 0
    else if IsSpace(s[0]) then 1 + Blanks(s[1..])
    else if s[0] == '\\' && |s| > 1 && IsEscape(s[1]) then 2 + Blanks(s[2..])
    else 0
  }

  // ------------------------------------------------ a forward reading of text

  // Where reading forward stands: outside strings, or inside one, right after
  // an unfinished escape or not.
  datatype Mode = Outside | Inside(escaped: bool)

  function Step(m: Mode, c: char): Mode {
    match m
    case Outside => if c == '"' then Inside(false) else Outside
    case Inside(true) => Inside(false)
    case Inside(false) => if c == '\\' then Inside(true) else if c == '"' then Outside else m
  }

  function ModeAt(t: string, n: nat): Mode
    requires n <= |t|
  {
    if n == 0 then Outside else Step(ModeAt(t, n - 1), t[n - 1])
  }

  // The brackets outside strings among the first n characters.
  function Brackets(t: string, n: nat): string
    requires n <= |t|
  {
    if n == 0 then []
    else if ModeAt(t, n - 1) == Outside && (Opens(t[n - 1]) || Closes(t[n - 1])) then Brackets(t, n - 1) + [t[n - 1]]
    else Brackets(t, n - 1)
  }

  // Counting backslashes backwards agrees with reading escapes forwards.
  function Backslashes(s: string, n: nat): (k: nat)
    requires n <= |s|
    ensures k <= n
  {
    if n == 0 || s[n - 1] != '\\' then 0 else 1 + Backslashes(s, n - 1)
  }

  lemma {:induction false} BackwardsIsForwards(s: string, start: nat, n: nat)
    requires start + n <= |s| && ModeAt(s[start..], n).Inside?
    ensures ModeAt(s[start..], n).escaped <==> Backslashes(s, start + n) % 2 == 1
  {
    var t := s[start..];
    assert n > 0 && t[n - 1] == s[start + n - 1];
    if ModeAt(t, n - 1).Inside? {
      BackwardsIsForwards(s, start, n - 1);
    }
  }

  // ------------------------------------------------------- proper nesting

  // Proper nesting as a grammar: nothing, or a nesting in curly or in square
  // brackets followed by a nesting.
  ghost predicate Nested(b: string)
    decreases |b|, 1
  {
    b == [] || exists k :: NestedAt(b, k)
  }

  ghost predicate NestedAt(b: string, k: int)
    decreases |b|, 0
  {
    && 0 < k < |b| && ((b[0] == '{' && b[k] == '}') || (b[0] == '[' && b[k] == ']'))
    && Nested(b[1..k]) && Nested(b[k + 1..])
  }

  // The closing brackets owed after reading b. Not strict: past the depth limit
  // any closing bracket will do.
  function Owed(b: string, strict: bool): Option<string> {
    if b == [] then Some([])
    else
      var c := b[|b| - 1];
      match Owed(b[..|b| - 1], strict)
      case None => None
      case Some(st) =>
        if !Closes(c) then Some(st + [CloserOf(c)])
        else if st == [] then None
        else if st[|st| - 1] == c || (!strict && |st| > MAX_DEPTH) then Some(st[..|st| - 1])
        else None
  }

  lemma OwedSnoc(b: string, c: char, strict: bool)
    ensures Owed(b + [c], strict) ==
      match Owed(b, strict)
      case None => None
      case Some(st) =>
        if !Closes(c) then Some(st + [CloserOf(c)])
        else if st == [] then None
        else if st[|st| - 1] == c || (!strict && |st| > MAX_DEPTH) then Some(st[..|st| - 1])
        else None
  {
    assert (b + [c])[..|b|] == b;
  }

  // What is lost stays lost.
  lemma {:induction false} LostStaysLost(b: string, n: nat, strict: bool)
    requires n <= |b| && Owed(b[..n], strict) == None
    ensures Owed(b, strict) == None
  {
    if n == |b| {
      assert b[..n] == b;
    } else {
      assert b[..|b| - 1][..n] == b[..n];
      LostStaysLost(b[..|b| - 1], n, strict);
    }
  }

  // Reading v after b, from what b leaves owed.
  function Resume(st: string, v: string): Option<string>
    decreases |v|
  {
    if v == [] then Some(st)
    else if !Closes(v[0]) then Resume(st + [CloserOf(v[0])], v[1..])
    else if st == [] || st[|st| - 1] != v[0] then None
    else Resume(st[..|st| - 1], v[1..])
  }

  lemma {:induction false} OwedResume(b: string, v: string)
    ensures Owed(b + v, true) == if Owed(b, true) == None then None else Resume(Owed(b, true).value, v)
    decreases |v|
  {
    if v == [] {
      assert b + v == b;
    } else {
      assert b + v == (b + [v[0]]) + v[1..];
      OwedSnoc(b, v[0], true);
      OwedResume(b + [v[0]], v[1..]);
    }
  }

  // A nesting leaves what is owed as it was.
  lemma {:induction false} NestedResume(st: string, u: string, v: string)
    requires Nested(u)
    ensures Resume(st, u + v) == Resume(st, v)
    decreases |u|
  {
    if u == [] {
      assert u + v == v;
    } else {
      var k :| NestedAt(u, k);
      var inner, rest := u[1..k], u[k + 1..];
      var c := CloserOf(u[0]);
      assert u + v == [u[0]] + (inner + ([c] + (rest + v)));
      assert (u + v)[1..] == inner + ([c] + (rest + v));
      NestedResume(st + [c], inner, [c] + (rest + v));
      assert ([c] + (rest + v))[1..] == rest + v;
      assert (st + [c])[..|st|] == st;
      NestedResume(st, rest, v);
    }
  }

  // Where the bracket owed last is closed.
  lemma {:induction false} ClosingPlace(st: string, c: char, v: string) returns (k: nat)
    requires Closes(c) && Resume(st + [c], v).Some? && |Resume(st + [c], v).value| <= |st|
    requires forall i :: 0 <= i < |v| ==> Opens(v[i]) || Closes(v[i])
    ensures k < |v| && v[k] == c && Nested(v[..k]) && Resume(st, v[k + 1..]) == Resume(st + [c], v)
    decreases |v|
  {
    assert v != [];
    assert (st + [c])[..|st|] == st;
    if Closes(v[0]) {
      k := 0;
    } else {
      var c0 := CloserOf(v[0]);
      var j := ClosingPlace(st + [c], c0, v[1..]);
      var w := v[1..][j + 1..];
      var i := ClosingPlace(st, c, w);
      k := j + 2 + i;
      Glue(v, j, i);
    }
  }

  lemma Glue(v: string, j: nat, i: nat)
    requires j + 2 + i < |v| && Opens(v[0]) && v[1..][j] == CloserOf(v[0])
    requires Nested(v[1..][..j]) && Nested(v[1..][j + 1..][..i])
    ensures Nested(v[..j + 2 + i]) && v[1..][j + 1..][i + 1..] == v[j + 2 + i + 1..]
    ensures v[1..][j + 1..][i] == v[j + 2 + i]
  {
    var k := j + 2 + i;
    var w := v[1..][j + 1..];
    assert w == v[j + 2..];
    assert v[..k][1..j + 1] == v[1..][..j] && v[..k][j + 2..] == w[..i];
    assert NestedAt(v[..k], j + 1);
  }

  // The stack accepts exactly the properly nested bracket strings.
  lemma NestedIff(b: string)
    requires forall i :: 0 <= i < |b| ==> b[i] in "{[]}"
    ensures Owed(b, true) == Some([]) <==> Nested(b)
  {
    OwedResume([], b);
    assert [] + b == b;
    if Nested(b) {
      NestedResume([], b, []);
      assert b + [] == b;
    }
    if Owed(b, true) == Some([]) { ResumeNested(b); }
  }

  lemma {:induction false} ResumeNested(b: string)
    requires forall i :: 0 <= i < |b| ==> Opens(b[i]) || Closes(b[i])
    requires Resume([], b) == Some([])
    ensures Nested(b)
    decreases |b|
  {
    if b != [] {
      var c := CloserOf(b[0]);
      var k := ClosingPlace([], c, b[1..]);
      assert [] + [c] == [c];
      assert b[1..][..k] == b[1..k + 1] && b[1..][k + 1..] == b[k + 2..];
      ResumeNested(b[k + 2..]);
      assert NestedAt(b, k + 1);
    }
  }

  // ------------------------------------------------------- the depth limit

  ghost predicate AllBrackets(b: string) {
    forall i :: 0 <= i < |b| ==> Opens(b[i]) || Closes(b[i])
  }

  // Every closing bracket below the depth limit matches what it closes.
  ghost predicate DeepMatches(b: string) {
    forall k :: 0 <= k < |b| ==> DeepMatch(b, k)
  }

  ghost predicate DeepMatch(b: string, k: int)
    requires 0 <= k < |b|
  {
    var o := Owed(b[..k], false);
    Closes(b[k]) && o.Some? && |o.value| > MAX_DEPTH ==> o.value[|o.value| - 1] == b[k]
  }

  // No prefix nests deeper than the limit.
  ghost predicate Shallow(b: string) {
    forall k :: 0 <= k < |b| ==> Owed(b[..k], false) == None || |Owed(b[..k], false).value| <= MAX_DEPTH
  }

  lemma ShallowMatches(b: string)
    requires Shallow(b)
    ensures DeepMatches(b)
  {
    hide Owed;
    forall k | 0 <= k < |b| ensures DeepMatch(b, k) {
      assert Owed(b[..k], false) == None || |Owed(b[..k], false).value| <= MAX_DEPTH;
    }
  }

  lemma {:induction false} LooseFollows(b: string)
    requires Owed(b, true).Some?
    ensures Owed(b, false) == Owed(b, true)
  {
    if b != [] { LooseFollows(b[..|b| - 1]); }
  }

  // The unchecked depths are harmless exactly when everything there matches.
  lemma {:induction false} StrictIff(b: string)
    requires Owed(b, false).Some?
    ensures Owed(b, true) == Owed(b, false) <==> DeepMatches(b)
    ensures Owed(b, true) != Owed(b, false) ==> Owed(b, true) == None
  {
    if b != [] {
      var n := |b| - 1;
      StrictIff(b[..n]);
      forall k | 0 <= k < n ensures DeepMatch(b[..n], k) <==> DeepMatch(b, k) { assert b[..n][..k] == b[..k]; }
      assert DeepMatches(b) <==> DeepMatches(b[..n]) && DeepMatch(b, n);
    }
  }

  // ----------------------------------------------------------- cutting a text

  // The scanner's idea of a complete value: brackets were seen and none is owed.
  ghost predicate Complete(t: string, n: nat)
    requires n <= |t|
  {
    Brackets(t, n) != [] && Owed(Brackets(t, n), false) == Some([])
  }

  ghost predicate IsCut(t: string, e: nat) {
    e <= |t| && Complete(t, e) && forall n :: 0 <= n < e ==> !Complete(t, n)
  }

  ghost predicate NestedPrefix(t: string, n: nat)
    requires n <= |t|
  {
    Brackets(t, n) != [] && Nested(Brackets(t, n))
  }

  ghost predicate ShortestNested(t: string, e: nat) {
    e <= |t| && NestedPrefix(t, e) && forall n :: 0 <= n < e ==> !NestedPrefix(t, n)
  }

  lemma {:induction false} BracketsAre(t: string, n: nat)
    requires n <= |t|
    ensures AllBrackets(Brackets(t, n)) && |Brackets(t, n)| <= n
    ensures forall i :: 0 <= i < |Brackets(t, n)| ==> Brackets(t, n)[i] in "{[]}"
  {
    if n != 0 { BracketsAre(t, n - 1); }
  }

  // A character counts when it is one of the four and stands outside strings.
  lemma BracketsGain(t: string, n: nat)
    requires n < |t|
    ensures Brackets(t, 0) == []
    ensures Brackets(t, n + 1) == Brackets(t, n) + if !ModeAt(t, n).Inside? && t[n] in "{[]}" then [t[n]] else []
  {
  }

  // Strings begin and end at quotes; inside one, a quote after an odd number
  // of backslashes does not count.
  lemma QuotesToggle(t: string, n: nat)
    requires n < |t|
    ensures ModeAt(t, 0) == Outside
    ensures ModeAt(t, n + 1).Inside? != ModeAt(t, n).Inside? <==>
              t[n] == '"' && (!ModeAt(t, n).Inside? || Backslashes(t, n) % 2 == 0)
  {
    if ModeAt(t, n).Inside? {
      assert t[0..] == t;
      BackwardsIsForwards(t, 0, n);
    }
  }

  // The blanks, and the escapes that count as such.
  lemma BlankCharacters(c: char, s: string)
    ensures c != '\\' ==> Blanks([c] + s) == if c == ' ' || 9 <= c as int <= 13 then 1 + Blanks(s) else 0
    ensures Blanks(['\\', c] + s) == if c in "nrt" then 2 + Blanks(s) else 0
    ensures Blanks("") == 0 && Blanks("\\") == 0
  {
    assert ([c] + s)[1..] == s;
    assert (['\\', c] + s)[2..] == s;
  }

  lemma {:induction false} BracketsGrow(t: string, m: nat, n: nat)
    requires m <= n <= |t|
    ensures Brackets(t, m) <= Brackets(t, n)
  {
    if m < n { BracketsGrow(t, m, n - 1); }
  }

  lemma PrefixMatches(a: string, b: string)
    requires a <= b && DeepMatches(b)
    ensures DeepMatches(a)
  {
    hide Owed;
    forall k | 0 <= k < |a| ensures DeepMatch(a, k) {
      assert a[..k] == b[..k] && DeepMatch(b, k);
    }
  }

  lemma CompleteIsNested(t: string, n: nat)
    requires n <= |t|
    ensures NestedPrefix(t, n) ==> Complete(t, n)
    ensures Complete(t, n) ==> (NestedPrefix(t, n) <==> DeepMatches(Brackets(t, n)))
  {
    hide Owed, Brackets, Nested, DeepMatches;
    var b := Brackets(t, n);
    BracketsAre(t, n);
    NestedIff(b);
    if Owed(b, true).Some? { LooseFollows(b); }
    if Owed(b, false).Some? { StrictIff(b); }
  }

  // For a text nested no deeper than the limit, or deeper but matching there,
  // the cut is after the shortest prefix whose brackets are properly nested.
  lemma CutIsShortestNested(t: string, e: nat)
    requires DeepMatches(Brackets(t, |t|))
    ensures IsCut(t, e) <==> ShortestNested(t, e)
  {
    hide Complete, NestedPrefix, Brackets, DeepMatches;
    forall n | 0 <= n <= |t| ensures Complete(t, n) <==> NestedPrefix(t, n) {
      CompleteIsNested(t, n);
      BracketsGrow(t, n, |t|);
      PrefixMatches(Brackets(t, n), Brackets(t, |t|));
    }
  }

  // In general the part cut off is the shortest properly nested prefix exactly
  // when what lies deeper than the limit in it matches.
  lemma CutIff(t: string, e: nat)
    requires IsCut(t, e)
    ensures ShortestNested(t, e) <==> DeepMatches(Brackets(t, e))
  {
    hide Complete, NestedPrefix, Brackets, DeepMatches;
    CompleteIsNested(t, e);
    forall n | 0 <= n < e ensures !NestedPrefix(t, n) { CompleteIsNested(t, n); }
  }

  // ------------------------------------- one level too deep: a wrong bracket

  function Times(n: nat, c: char): (s: string)
    ensures |s| == n && forall i :: 0 <= i < n ==> s[i] == c
  {
    seq(n, _ => c)
  }

  lemma {:induction false} PlainBrackets(t: string, n: nat)
    requires n <= |t| && AllBrackets(t)
    ensures ModeAt(t, n) == Outside && Brackets(t, n) == t[..n]
  {
    if n != 0 { PlainBrackets(t, n - 1); }
  }

  lemma {:induction false} OwedOpen(n: nat)
    ensures Owed(Times(n, '['), false) == Some(Times(n, ']'))
  {
    if n != 0 {
      OwedOpen(n - 1);
      assert Times(n, '[') == Times(n - 1, '[') + ['['];
      assert Times(n, ']') == Times(n - 1, ']') + [']'];
      OwedSnoc(Times(n - 1, '['), '[', false);
    }
  }

  lemma {:induction false} OwedClose(b: string, n: nat, k: nat)
    requires k <= n && Owed(b, false) == Some(Times(n, ']'))
    ensures Owed(b + Times(k, ']'), false) == Some(Times(n - k, ']'))
  {
    if k == 0 {
      assert b + Times(0, ']') == b;
    } else {
      OwedClose(b, n, k - 1);
      assert b + Times(k, ']') == (b + Times(k - 1, ']')) + [']'];
      OwedSnoc(b + Times(k - 1, ']'), ']', false);
      assert Times(n - k + 1, ']')[..n - k] == Times(n - k, ']');
    }
  }

  // 129 opening square brackets closed by a curly and 128 square ones are cut
  // as one value.
  function TooDeep(): string {
    Times(129, '[') + "}" + Times(128, ']')
  }

  lemma TooDeepIsCut()
    ensures IsCut(TooDeep(), 258) && !Nested(Brackets(TooDeep(), 258))
  {
    hide Owed, Brackets, Nested;
    var t := TooDeep();
    assert t[..258] == t;
    PlainBrackets(t, 258);
    var mid := Times(129, '[') + "}";
    OwedOpen(129);
    OwedSnoc(Times(129, '['), '}', false);
    assert Times(129, ']')[..128] == Times(128, ']');
    assert t == mid + Times(128, ']');
    OwedClose(mid, 128, 128);
    assert Times(0, ']') == [];
    forall n | 0 <= n < 258 ensures !Complete(t, n) {
      PlainBrackets(t, n);
      StillOwed(n);
    }
    StrictIff(t);
    NestedIff(t);
    MidMismatch();
  }

  lemma StillOwed(n: nat)
    requires n < 258
    ensures n > 0 ==> Owed(TooDeep()[..n], false) != Some([])
  {
    hide Owed;
    var t, mid := TooDeep(), Times(129, '[') + "}";
    if 0 < n <= 129 {
      assert t[..n] == Times(n, '[');
      OwedOpen(n);
    } else if n > 129 {
      OwedOpen(129);
      OwedSnoc(Times(129, '['), '}', false);
      assert Times(129, ']')[..128] == Times(128, ']');
      assert t[..n] == mid + Times(n - 130, ']');
      OwedClose(mid, 128, n - 130);
    }
  }

  lemma MidMismatch()
    ensures !DeepMatches(TooDeep())
  {
    hide Owed;
    var t := TooDeep();
    OwedOpen(129);
    assert t[..129] == Times(129, '[') && t[129] == '}';
    assert !DeepMatch(t, 129);
  }

  // ------------------------------------------------------ who a bracket answers

  // The opening bracket at k is the one the m-th bracket owed answers: it was
  // read with m owed, and the level has stayed above m since.
  ghost predicate OpenedAt(b: string, strict: bool, k: int, m: nat) {
    && 0 <= k < |b| && Owed(b, strict).Some? && m < |Owed(b, strict).value|
    && Owed(b[..k], strict) == Some(Owed(b, strict).value[..m])
    && forall j :: k < j <= |b| ==> Owed(b[..j], strict).Some? && |Owed(b[..j], strict).value| > m
  }

  // Every bracket owed has its opening one: curly for curly, square for square.
  lemma {:induction false} EachHasItsOpener(b: string, strict: bool, m: nat) returns (k: int)
    requires Owed(b, strict).Some? && m < |Owed(b, strict).value|
    requires forall i :: 0 <= i < |b| ==> b[i] in "{[]}"
    ensures OpenedAt(b, strict, k, m)
    ensures var c := Owed(b, strict).value[m]; (b[k] == '{' && c == '}') || (b[k] == '[' && c == ']')
  {
    var n := |b| - 1;
    assert b[..|b|] == b;
    var a := b[..n];
    var s, st := Owed(a, strict).value, Owed(b, strict).value;
    if !Closes(b[n]) && m == |s| {
      k := n;
      assert st[..m] == s;
    } else {
      k := EachHasItsOpener(a, strict, m);
      assert st[..m] == s[..m];
      forall j | k < j <= n ensures a[..j] == b[..j] {}
      assert a[..k] == b[..k];
    }
  }

  // So a mismatch is never reported for a bracket against its own kind.
  lemma MismatchIsReal(t: string, n: nat, expected: char)
    requires FailsAt(t, n, expected)
    ensures exists k :: 0 <= k < |Brackets(t, n)|
              && OpenedAt(Brackets(t, n), false, k, |Owed(Brackets(t, n), false).value| - 1)
              && ((Brackets(t, n)[k] == '{' && expected == '}' && t[n] == ']')
                  || (Brackets(t, n)[k] == '[' && expected == ']' && t[n] == '}'))
  {
    hide Owed, Brackets, OpenedAt;
    BracketsAre(t, n);
    var k := EachHasItsOpener(Brackets(t, n), false, |Owed(Brackets(t, n), false).value| - 1);
  }

  // At depth 128 a wrong bracket is still an error.
  lemma LastCheckedDepth()
    ensures FailsAt(Times(128, '[') + "}", 128, ']')
  {
    hide Owed;
    var t := Times(128, '[') + "}";
    PlainBrackets(t, 128);
    OwedOpen(128);
    assert t[..128] == Times(128, '[');
  }

  // An object with a bracket and an escaped quote inside a string is cut where
  // it ends.
  function SomeObject(): string {
    "{\"]\\\"\":[1]} ]"
  }

  lemma ObjectIsCut()
    ensures IsCut("{}", 2) && IsCut(SomeObject(), 11)
  {
    hide Owed;
    SmallOwed();
    assert Brackets("{}", 1) == "{" && Brackets("{}", 2) == "{}";
    ObjectReads();
  }

  lemma ObjectReads()
    ensures var t := SomeObject();
            && Brackets(t, 0) == "" && Brackets(t, 11) == "{[]}"
            && forall n :: 1 <= n < 11 ==> Brackets(t, n) in ["{", "{[", "{[]"]
  {
    var t := SomeObject();
    assert ModeAt(t, 0) == Outside && Brackets(t, 0) == "";
    assert ModeAt(t, 1) == Outside && Brackets(t, 1) == "{";
    assert ModeAt(t, 2) == Inside(false) && Brackets(t, 2) == "{";
    assert ModeAt(t, 3) == Inside(false) && Brackets(t, 3) == "{";
    assert ModeAt(t, 4) == Inside(true) && Brackets(t, 4) == "{";
    assert ModeAt(t, 5) == Inside(false) && Brackets(t, 5) == "{";
    assert ModeAt(t, 6) == Outside && Brackets(t, 6) == "{";
    assert ModeAt(t, 7) == Outside && Brackets(t, 7) == "{";
    assert ModeAt(t, 8) == Outside && Brackets(t, 8) == "{[";
    assert ModeAt(t, 9) == Outside && Brackets(t, 9) == "{[";
    assert ModeAt(t, 10) == Outside && Brackets(t, 10) == "{[]";
    assert ModeAt(t, 11) == Outside && Brackets(t, 11) == "{[]}";
  }

  lemma SmallOwed()
    ensures Owed("", false) == Some("") && Owed("{", false) == Some("}") && Owed("{}", false) == Some("")
    ensures Owed("{[", false) == Some("}]") && Owed("{[]", false) == Some("}") && Owed("{[]}", false) == Some("")
  {
    hide Owed;
    EmptyOwed();
    assert "" + ['{'] == "{" && "{" + ['}'] == "{}" && "{" + ['['] == "{[";
    assert "{[" + [']'] == "{[]" && "{[]" + ['}'] == "{[]}";
    assert "" + ['}'] == "}" && "}" + [']'] == "}]" && "}"[..0] == "" && "}]"[..1] == "}";
    OwedSnoc("", '{', false);
    OwedSnoc("{", '}', false);
    OwedSnoc("{", '[', false);
    OwedSnoc("{[", ']', false);
    OwedSnoc("{[]", '}', false);
  }

  lemma EmptyOwed()
    ensures Owed("", false) == Some("")
  {
  }

  // -------------------------------------------------------------- the scanner

  // SKIP_WS_AND_ESCAPES
  method SkipBlanks(s: string, p: nat) returns (p': nat)
    requires p <= |s|
    ensures p' == p + Blanks(s[p..]) <= |s|
  {
    p' := p;
    while p' < |s|
      invariant p <= p' <= |s| && p' + Blanks(s[p'..]) == p + Blanks(s[p..])
    {
      assert s[p'..][1..] == s[p' + 1..];
      if IsSpace(s[p']) {
        p' := p' + 1;
        continue;
      }
      if s[p'] == '\\' && p' + 1 < |s| {
        if IsEscape(s[p' + 1]) {
          assert s[p'..][2..] == s[p' + 2..];
          p' := p' + 2;
          continue;
        }
      }
      break;
    }
  }

  lemma {:induction false} BlanksSkipped(s: string)
    ensures Blanks(s[Blanks(s)..]) == 0
  {
    if s == [] {
    } else if IsSpace(s[0]) {
      BlanksSkipped(s[1..]);
      assert s[Blanks(s)..] == s[1..][Blanks(s[1..])..];
    } else if s[0] == '\\' && |s| > 1 && IsEscape(s[1]) {
      BlanksSkipped(s[2..]);
      assert s[Blanks(s)..] == s[2..][Blanks(s[2..])..];
    }
  }

  // Blanks outside strings change nothing.
  lemma {:induction false} BlanksNeutral(t: string, m: nat)
    requires m <= |t| && ModeAt(t, m) == Outside
    ensures forall j :: m <= j <= m + Blanks(t[m..]) ==> ModeAt(t, j) == Outside && Brackets(t, j) == Brackets(t, m)
    decreases |t| - m
  {
    hide ModeAt, Brackets;
    var u := t[m..];
    if u == [] {
    } else if IsSpace(u[0]) {
      assert u[1..] == t[m + 1..];
      PlainCharacter(t, m);
      BlanksNeutral(t, m + 1);
    } else if u[0] == '\\' && |u| > 1 && IsEscape(u[1]) {
      assert u[2..] == t[m + 2..] && t[m + 1] == u[1];
      PlainCharacter(t, m);
      PlainCharacter(t, m + 1);
      BlanksNeutral(t, m + 2);
    }
  }

  lemma PlainCharacter(t: string, m: nat)
    requires m < |t| && ModeAt(t, m) == Outside && t[m] != '"' && !Opens(t[m]) && !Closes(t[m])
    ensures ModeAt(t, m + 1) == Outside && Brackets(t, m + 1) == Brackets(t, m)
  {
  }

  // The expected closing brackets, as far as the array keeps them.
  ghost predicate Mirrors(brackets: seq<char>, st: string) {
    |brackets| == MAX_DEPTH && forall k :: 0 <= k < |st| && k < MAX_DEPTH ==> brackets[k] == st[k]
  }

  // What the scanner knows after n characters of t, which starts with an
  // opening bracket: where it stands, what is owed, and that no value is
  // complete yet.
  ghost predicate Scanned(t: string, n: nat, inString: bool, brackets: seq<char>, level: nat) {
    && 0 < n <= |t| && (inString <==> ModeAt(t, n).Inside?)
    && Owed(Brackets(t, n), false).Some? && |Owed(Brackets(t, n), false).value| == level > 0
    && Mirrors(brackets, Owed(Brackets(t, n), false).value)
    && forall k :: 0 <= k <= n ==> !Complete(t, k)
  }

  lemma FirstBracket(t: string, brackets: seq<char>)
    requires t != [] && Opens(t[0]) && |brackets| == MAX_DEPTH && brackets[0] == CloserOf(t[0])
    ensures Scanned(t, 1, false, brackets, 1)
  {
    assert Brackets(t, 0) == [] && Brackets(t, 1) == [] + [t[0]];
    OwedSnoc([], t[0], false);
  }

  // A character that is no bracket outside strings leaves everything owed.
  lemma Passing(t: string, n: nat, inString: bool, brackets: seq<char>, level: nat)
    requires Scanned(t, n, inString, brackets, level) && n < |t|
    requires inString || !(Opens(t[n]) || Closes(t[n]))
    ensures Scanned(t, n + 1, Step(ModeAt(t, n), t[n]).Inside?, brackets, level)
  {
    hide Owed;
    assert Brackets(t, n + 1) == Brackets(t, n);
    assert !Complete(t, n);
  }

  lemma PassingBlanks(t: string, n: nat, brackets: seq<char>, level: nat)
    requires Scanned(t, n, false, brackets, level)
    ensures Scanned(t, n + Blanks(t[n..]), false, brackets, level)
  {
    hide Owed;
    BlanksNeutral(t, n);
    assert !Complete(t, n);
  }

  lemma Opening(t: string, n: nat, brackets: seq<char>, brackets': seq<char>, level: nat)
    requires Scanned(t, n, false, brackets, level) && n < |t| && Opens(t[n]) && |brackets'| == MAX_DEPTH
    requires brackets' == if level < MAX_DEPTH then brackets[level := CloserOf(t[n])] else brackets
    ensures Scanned(t, n + 1, false, brackets', level + 1)
  {
    OwedSnoc(Brackets(t, n), t[n], false);
    assert Brackets(t, n + 1) == Brackets(t, n) + [t[n]];
  }

  // The bracket after n characters is not the one owed, and the place is
  // within the depth limit.
  ghost predicate FailsAt(t: string, n: nat, expected: char) {
    && n < |t| && Closes(t[n]) && ModeAt(t, n) == Outside && Owed(Brackets(t, n), false).Some?
    && var st := Owed(Brackets(t, n), false).value; 0 < |st| <= MAX_DEPTH && st[|st| - 1] == expected != t[n]
  }

  lemma Failing(t: string, n: nat, brackets: seq<char>, level: nat)
    requires Scanned(t, n, false, brackets, level) && n < |t| && Closes(t[n])
    requires level - 1 < MAX_DEPTH && brackets[level - 1] != t[n]
    ensures FailsAt(t, n, brackets[level - 1])
  {
  }

  // A failure is final.
  lemma FailureIsFinal(t: string, n: nat, expected: char, k: nat)
    requires FailsAt(t, n, expected) && n < k <= |t|
    ensures Owed(Brackets(t, k), false) == None
  {
    var b := Brackets(t, n);
    OwedSnoc(b, t[n], false);
    assert Brackets(t, n + 1) == b + [t[n]];
    BracketsGrow(t, n + 1, k);
    assert Brackets(t, k)[..|b| + 1] == Brackets(t, n + 1);
    LostStaysLost(Brackets(t, k), |b| + 1, false);
  }

  lemma Closing(t: string, n: nat, brackets: seq<char>, level: nat)
    requires Scanned(t, n, false, brackets, level) && n < |t| && Closes(t[n])
    ensures level - 1 < MAX_DEPTH && brackets[level - 1] != t[n] ==> forall k :: 0 <= k <= |t| ==> !Complete(t, k)
    ensures (level - 1 >= MAX_DEPTH || brackets[level - 1] == t[n]) && level > 1 ==>
              Scanned(t, n + 1, false, brackets, level - 1)
    ensures (level - 1 >= MAX_DEPTH || brackets[level - 1] == t[n]) && level == 1 ==> IsCut(t, n + 1)
  {
    var b := Brackets(t, n);
    OwedSnoc(b, t[n], false);
    assert Brackets(t, n + 1) == b + [t[n]];
    if level - 1 < MAX_DEPTH && brackets[level - 1] != t[n] {
      Failing(t, n, brackets, level);
      forall k | n < k <= |t| ensures !Complete(t, k) {
        FailureIsFinal(t, n, brackets[level - 1], k);
      }
    }
  }

  lemma StepModes(t: string, n: nat, inString: bool, brackets: seq<char>, level: nat)
    requires Scanned(t, n, inString, brackets, level) && n < |t|
    ensures ModeAt(t, n + 1) == Step(ModeAt(t, n), t[n]) && (inString <==> ModeAt(t, n).Inside?)
    ensures level > 0 && |brackets| == MAX_DEPTH
  {
  }

  lemma NoCut(t: string)
    requires forall k :: 0 <= k <= |t| ==> !Complete(t, k)
    ensures forall e :: !IsCut(t, e)
  {
  }

  // At the end of the text something is still owed.
  lemma Unfinished(t: string, inString: bool, brackets: seq<char>, level: nat)
    requires Scanned(t, |t|, inString, brackets, level)
    ensures forall k :: 0 <= k <= |t| ==> !Complete(t, k)
    ensures Owes(t, level)
  {
  }

  ghost predicate Owes(t: string, level: nat) {
    Owed(Brackets(t, |t|), false).Some? && |Owed(Brackets(t, |t|), false).value| == level
  }

  // No value can be completed, and this is why.
  ghost predicate Explained(input: string, start: nat, error: Report)
    requires start <= |input|
  {
    var t := input[start..];
    && (forall e :: !IsCut(t, e))
    && match error
       case Truncated(size, level) => size == |input| && Owes(t, level)
       case Mismatch(expected, found, pos) =>
         start < pos <= |input| && found == input[pos - 1] && FailsAt(t, pos - 1 - start, expected)
  }

  lemma NothingCut(input: string, start: nat, error: Report)
    requires start <= |input| && Explained(input, start, error)
    ensures forall e :: !IsCut(input[start..], e)
  {
  }

  // What a report says.
  lemma ReportReads(input: string, start: nat, error: Report)
    requires start <= |input| && Explained(input, start, error)
    ensures error.Mismatch? ==> start < error.pos <= |input| && error.found == input[error.pos - 1]
                                && FailsAt(input[start..], error.pos - 1 - start, error.expected)
    ensures error.Truncated? ==> error.size == |input|
    ensures error.Truncated? ==> var o := Owed(Brackets(input[start..], |input| - start), false);
                                 o.Some? && |o.value| == error.level
  {
  }

  // The two errors exclude each other.
  lemma OneExplanation(input: string, start: nat, error: Report)
    requires start <= |input| && Explained(input, start, error)
    ensures error.Mismatch? <==> Owed(Brackets(input[start..], |input| - start), false) == None
  {
    var t := input[start..];
    if error.Mismatch? { FailureIsFinal(t, error.pos - 1 - start, error.expected, |t|); }
  }

  // Counted backwards from the quote, and not past the start of the text.
  method CountBackslashes(s: string, p: nat) returns (backslashes: nat)
    requires p <= |s|
    ensures backslashes == Backslashes(s, p)
  {
    backslashes := 0;
    var q: int := p - 1;
    while q >= 0 && s[q] == '\\'
      invariant -1 <= q < p && backslashes + Backslashes(s, q + 1) == Backslashes(s, p)
    {
      backslashes := backslashes + 1;
      q := q - 1;
    }
  }

  // From the first bracket on: the end of the first value, if there is one.
  method Scan(input: string, start: nat) returns (r: Result<nat>)
    requires start < |input| && Opens(input[start])
    ensures r.Err? ==> Explained(input, start, r.error)
    ensures r.Ok? ==> start < r.value <= |input| && IsCut(input[start..], r.value - start)
  {
    hide Owed, Brackets, ModeAt, Complete, Mirrors, Scanned, Owes, FailsAt;
    ghost var t := input[start..];
    var brackets := new char[MAX_DEPTH];
    var level := 0;
    var p := start;
    brackets[level] := CloserOf(input[p]);
    level := level + 1;
    p := p + 1;
    FirstBracket(t, brackets[..]);
    PassingBlanks(t, 1, brackets[..], 1);
    assert t[1..] == input[p..];
    p := SkipBlanks(input, p);
    var inString := false;
    while p < |input|
      invariant start < p <= |input|
      invariant Scanned(t, p - start, inString, brackets[..], level)
    {
      var ch := input[p];
      ghost var n := p - start;
      assert t[n] == ch;
      StepModes(t, n, inString, brackets[..], level);
      if inString {
        Passing(t, n, inString, brackets[..], level);
        if ch == '"' {
          BackwardsIsForwards(input, start, n);
          var backslashes := CountBackslashes(input, p);
          if backslashes % 2 == 0 {
            inString := false;
          }
        }
        p := p + 1;
        continue;
      }
      if IsSpace(ch) {
        Passing(t, n, inString, brackets[..], level);
        p := p + 1;
        continue;
      }
      if ch == '\\' && p + 1 < |input| && IsEscape(input[p + 1]) {
        Passing(t, n, inString, brackets[..], level);
        StepModes(t, n + 1, inString, brackets[..], level);
        Passing(t, n + 1, inString, brackets[..], level);
        p := p + 2;
        continue;
      }
      if ch == '"' {
        Passing(t, n, inString, brackets[..], level);
        inString := true;
      } else if Opens(ch) {
        ghost var before := brackets[..];
        if level < MAX_DEPTH {
          brackets[level] := CloserOf(ch);
        }
        Opening(t, n, before, brackets[..], level);
        level := level + 1;
      } else if Closes(ch) {
        Closing(t, n, brackets[..], level);
        // The level stays positive until the value is complete, so it is never
        // negative here.
        level := level - 1;
        if level < MAX_DEPTH && brackets[level] != ch {
          Failing(t, n, brackets[..], level + 1);
          NoCut(t);
          return Err(Mismatch(brackets[level], ch, p + 1));
        }
        if level == 0 {
          return Ok(p + 1);
        }
      } else {
        Passing(t, n, inString, brackets[..], level);
      }
      p := p + 1;
    }
    Unfinished(t, inString, brackets[..], level);
    NoCut(t);
    return Err(Truncated(|input|, level));
  }

  // Where scanning starts: past a byte order mark and leading blanks.
  function Mark(s: string): (n: nat)
    ensures n <= |s|
  {
    if |s| >= 3 && s[0] == 0xEF as char && s[1] == 0xBB as char && s[2] == 0xBF as char then 3 else 0
  }

  function Start(s: string): (n: nat)
    ensures n <= |s|
  {
    Mark(s) + Blanks(s[Mark(s)..])
  }

  // The mark is the three bytes of U+FEFF in UTF-8, and skipped once.
  lemma StartIs(s: string)
    ensures Start([0xEF as char, 0xBB as char, 0xBF as char] + s) == 3 + Blanks(s)
    ensures !([0xEF as char, 0xBB as char, 0xBF as char] <= s) ==> Start(s) == Blanks(s)
  {
    var t := [0xEF as char, 0xBB as char, 0xBF as char] + s;
    assert t[3..] == s && s[0..] == s;
    if |s| >= 3 && s[0] == 0xEF as char && s[1] == 0xBB as char && s[2] == 0xBF as char {
      assert s == [0xEF as char, 0xBB as char, 0xBF as char] + s[3..];
    }
  }

  // The part up to e, and what follows the blanks after it.
  lemma TwoParts(input: string, e: nat, q: nat)
    requires e <= |input| && q == e + Blanks(input[e..])
    ensures q <= |input|
    ensures var first, rest := input[..e], input[q..];
            && first == input[..|first|] && rest == input[|first| + Blanks(input[|first|..])..] && Blanks(rest) == 0
  {
    hide Blanks;
    BlanksSkipped(input[e..]);
    assert input[e..][q - e..] == input[q..];
  }

  // Nothing comes back, silently, exactly when the text does not start with a
  // bracket. Otherwise a value is found exactly when some later bracket
  // completes the first one, and is returned with everything before it; the
  // rest follows after the blanks between, and nothing else is lost.
  method UnserializeJson(input: string) returns (r: Result<Option<(string, string)>>)
    ensures r == Ok(None) <==> Start(input) == |input| || !Opens(input[Start(input)])
    ensures r.Ok? && r.value.Some? <==> Start(input) < |input| && Opens(input[Start(input)])
                                         && exists e :: IsCut(input[Start(input)..], e)
    ensures r.Ok? && r.value.Some? ==>
              var (first, rest) := r.value.value;
              && Start(input) < |first| && IsCut(input[Start(input)..], |first| - Start(input))
              && first == input[..|first|] && rest == input[|first| + Blanks(input[|first|..])..]
              && Blanks(rest) == 0
    ensures r.Err? ==> Explained(input, Start(input), r.error)
  {
    hide IsCut, Brackets, Blanks, Explained, IsSpace;
    var p := 0;
    if |input| >= 3 && input[0] == 0xEF as char && input[1] == 0xBB as char && input[2] == 0xBF as char {
      p := p + 3;
    }
    p := SkipBlanks(input, p);
    if p >= |input| {
      return Ok(None);
    }
    if input[p] != '{' && input[p] != '[' {
      return Ok(None);
    }
    var scanned := Scan(input, p);
    if scanned.Err? {
      NothingCut(input, p, scanned.error);
      return Err(scanned.error);
    }
    var jsonEnd := scanned.value;
    var q := SkipBlanks(input, jsonEnd);
    TwoParts(input, jsonEnd, q);
    return Ok(Some((input[..jsonEnd], input[q..])));
  }
}
