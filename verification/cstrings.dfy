/** NUL-terminated strings in a block of characters. */
module CStrings {
  const NUL := 0 as char

  function UpToNul(mem: seq<char>): string {
    if mem == [] || mem[0] == NUL then [] else [mem[0]] + UpToNul(mem[1..])
  }

  lemma {:induction false} NulAt(mem: seq<char>, n: nat)
    requires n < |mem| && mem[n] == NUL && forall i :: 0 <= i < n ==> mem[i] != NUL
    ensures UpToNul(mem) == mem[..n]
  {
    if n != 0 { NulAt(mem[1..], n - 1); }
  }

  lemma UpToNulIs(mem: seq<char>)
    requires NUL in mem
    ensures var h := UpToNul(mem);
            |h| < |mem| && h == mem[..|h|] && mem[|h|] == NUL && forall i :: 0 <= i < |h| ==> h[i] != NUL
  {
    if mem[0] != NUL { UpToNulIs(mem[1..]); }
  }

  // strlen.
  method Length(mem: array<char>) returns (n: nat)
    requires NUL in mem[..]
    ensures n < mem.Length && mem[n] == NUL && UpToNul(mem[..]) == mem[..n]
    ensures forall i :: 0 <= i < n ==> mem[i] != NUL
  {
    n := 0;
    while mem[n] != NUL
      invariant n < mem.Length && forall k :: 0 <= k < n ==> mem[k] != NUL
      decreases mem.Length - n
    {
      n := n + 1;
    }
    NulAt(mem[..], n);
  }
}
