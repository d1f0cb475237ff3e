/** Positions of symbols in an alphabet, as indexOf, position and find look them up. */
module Alphabets {
  /** The first position of a character, or -1. */
  function IndexOf(s: string, c: char): (r: int)
    ensures -1 <= r < |s|
    ensures r >= 0 ==> s[r] == c
    ensures r < 0 ==> c !in s
  {
    if s == [] then -1
    else if s[0] == c then 0
    else
      var r := IndexOf(s[1..], c);
      assert r < 0 ==> c !in s[1..] && s == [s[0]] + s[1..];
      if r < 0 then -1 else r + 1
  }

  predicate Distinct(s: string) {
    forall i, j :: 0 <= i < j < |s| ==> s[i] != s[j]
  }

  /** In an alphabet without repetitions a symbol is found where it stands. */
  lemma {:induction false} IndexOfSymbol(s: string, k: nat)
    requires Distinct(s) && k < |s|
    ensures IndexOf(s, s[k]) == k
  {
    if k > 0 { IndexOfSymbol(s[1..], k - 1); }
  }
}
