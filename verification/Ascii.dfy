// ASCII case folding, as std::tolower does it in the C locale.
module Ascii {

  function ToLower(c: char): char {
    if 'A' <= c <= 'Z' then (c as int + 32) as char else c
  }

  // Equality of two names up to ASCII case.
  predicate IEquals(a: string, b: string) {
    |a| == |b| && forall i :: 0 <= i < |a| ==> ToLower(a[i]) == ToLower(b[i])
  }

  // True when s begins with a prefix that is already written in lower case.
  predicate StartsWithLower(s: string, prefix: string) {
    |prefix| <= |s| && forall i :: 0 <= i < |prefix| ==> ToLower(s[i]) == prefix[i]
  }

  lemma IEqualsTransitive(a: string, b: string, c: string)
    requires IEquals(a, b)
    ensures IEquals(b, a)
    ensures IEquals(b, c) == IEquals(a, c)
  {
  }
}
