// string_view::find: the first place of a character or of a text.
module TextSearch {

  function IndexOf(s: string, c: char): (n: nat)
    ensures n <= |s| && (n < |s| ==> s[n] == c)
  {
    if s == [] || s[0] == c then 0 else 1 + IndexOf(s[1..], c)
  }

  predicate OccursAt(s: string, p: string, i: nat) { i + |p| <= |s| && s[i..i + |p|] == p }

  // The first occurrence of p in s, from i on; |s| if there is none.
  function Find(s: string, p: string, i: nat): (n: nat)
    requires i <= |s|
    ensures i <= n <= |s| && (n < |s| ==> OccursAt(s, p, n))
    decreases |s| - i
  {
    if i == |s| then i else if OccursAt(s, p, i) then i else Find(s, p, i + 1)
  }

  lemma {:induction false} FoundFirst(s: string, p: string, i: nat, n: nat)
    requires i <= n < |s| && OccursAt(s, p, n) && forall k :: i <= k < n ==> !OccursAt(s, p, k)
    ensures Find(s, p, i) == n
    decreases n - i
  {
    if i < n { FoundFirst(s, p, i + 1, n); }
  }

  method FindChar(s: string, c: char) returns (n: nat)
    ensures n == IndexOf(s, c)
  {
    n := 0;
    assert s[0..] == s;
    while n < |s| && s[n] != c
      invariant n <= |s| && IndexOf(s, c) == n + IndexOf(s[n..], c)
    {
      assert s[n..][1..] == s[n + 1..];
      n := n + 1;
    }
  }

  method FindText(s: string, p: string, from: nat) returns (n: nat)
    requires from <= |s|
    ensures n == Find(s, p, from)
  {
    n := from;
    while n < |s| && !OccursAt(s, p, n)
      invariant n <= |s| && Find(s, p, from) == Find(s, p, n)
    {
      n := n + 1;
    }
  }
}
