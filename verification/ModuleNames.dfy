// Module names as the guest graph compares them (normalize_module_name in src/loader/module_graph.cpp).
module ModuleNames {
  import opened Ascii

  // std::isspace in the C locale.
  predicate IsSpace(c: char) {
    c == ' ' || (9 as char) <= c <= (13 as char)
  }

  predicate IsSeparator(c: char) { c == '/' || c == '\\' || c == ':' }

  function TrimFront(s: string): string {
    if s != [] && IsSpace(s[0]) then TrimFront(s[1..]) else s
  }

  function TrimBack(s: string): string {
    if s != [] && IsSpace(s[|s| - 1]) then TrimBack(s[..|s| - 1]) else s
  }

  // What follows the last path separator.
  function BaseName(s: string): string {
    if s == [] then [] else if IsSeparator(s[|s| - 1]) then []
    else BaseName(s[..|s| - 1]) + [s[|s| - 1]]
  }

  function Lower(s: string): string {
    if s == [] then [] else [ToLower(s[0])] + Lower(s[1..])
  }

  predicate HasExtension(s: string) {
    |s| >= 4 && s[|s| - 4] == '.' && s[|s| - 3] == 'd' && s[|s| - 2] == 'l' && s[|s| - 1] == 'l'
  }

  function WithExtension(s: string): string { if HasExtension(s) then s else s + ['.', 'd', 'l', 'l'] }

  function Normalize(raw: string): string {
    var base := BaseName(TrimBack(TrimFront(raw)));
    if base == [] then [] else WithExtension(Lower(base))
  }

  method Trim(raw: string) returns (value: string)
    ensures value == TrimBack(TrimFront(raw))
  {
    var start := 0;
    while start < |raw| && IsSpace(raw[start])
      invariant start <= |raw| && TrimFront(raw) == TrimFront(raw[start..])
    {
      start := start + 1;
    }
    var end := |raw|;
    assert raw[start..end] == raw[start..];
    while end > start && IsSpace(raw[end - 1])
      invariant start <= end <= |raw| && TrimBack(raw[start..]) == TrimBack(raw[start..end])
    {
      assert raw[start..end][..end - start - 1] == raw[start..end - 1];
      end := end - 1;
    }
    return raw[start..end];
  }

  method LastPart(value: string) returns (base: string)
    ensures base == BaseName(value)
  {
    var cut := |value|;
    assert value[cut..] == [] && value[..cut] == value;
    while cut > 0 && !IsSeparator(value[cut - 1])
      invariant cut <= |value| && BaseName(value) == BaseName(value[..cut]) + value[cut..]
    {
      assert value[..cut][..cut - 1] == value[..cut - 1];
      assert value[cut - 1..] == [value[cut - 1]] + value[cut..];
      cut := cut - 1;
    }
    return value[cut..];
  }

  method LowerCopy(base: string) returns (name: string)
    ensures name == Lower(base)
  {
    name := [];
    assert base[0..] == base;
    for k := 0 to |base|
      invariant Lower(base) == name + Lower(base[k..])
    {
      assert base[k..][1..] == base[k + 1..];
      name := name + [ToLower(base[k])];
    }
  }

  method NormalizeModuleName(raw: string) returns (name: string)
    ensures name == Normalize(raw)
  {
    hide TrimFront, TrimBack, BaseName, Lower, HasExtension;
    var value := Trim(raw);
    var base := LastPart(value);
    if |base| == 0 { return []; }
    name := LowerCopy(base);
    if !HasExtension(name) { name := name + ['.', 'd', 'l', 'l']; }
  }

  // ---------------------------------------------------------------- names already normalised

  predicate IsLower(s: string) { forall i :: 0 <= i < |s| ==> !('A' <= s[i] <= 'Z') }

  predicate NoSeparator(s: string) { forall i :: 0 <= i < |s| ==> !IsSeparator(s[i]) }

  lemma ToLowerFacts(c: char)
    ensures !('A' <= ToLower(c) <= 'Z') && (!('A' <= c <= 'Z') ==> ToLower(c) == c)
    ensures !IsSeparator(c) ==> !IsSeparator(ToLower(c))
  {
  }

  lemma {:induction false} LowerIsLower(s: string)
    ensures |Lower(s)| == |s| && IsLower(Lower(s))
    ensures IsLower(s) ==> Lower(s) == s
    ensures NoSeparator(s) ==> NoSeparator(Lower(s))
  {
    hide ToLower, IsSeparator;
    if s != [] {
      LowerIsLower(s[1..]);
      ToLowerFacts(s[0]);
      assert Lower(s) == [ToLower(s[0])] + Lower(s[1..]);
      if IsLower(s) { assert IsLower(s[1..]); }
      if NoSeparator(s) { assert NoSeparator(s[1..]); }
    }
  }

  lemma {:induction false} BaseNameHasNoSeparator(s: string)
    ensures NoSeparator(BaseName(s))
    ensures NoSeparator(s) ==> BaseName(s) == s
    decreases |s|
  {
    hide IsSeparator;
    if s != [] {
      var rest, last := s[..|s| - 1], s[|s| - 1];
      BaseNameHasNoSeparator(rest);
      assert s == rest + [last];
    }
  }

  lemma {:induction false} TrimFrontIsSuffix(s: string)
    ensures |TrimFront(s)| <= |s| && s[|s| - |TrimFront(s)|..] == TrimFront(s)
    ensures TrimFront(s) == s <==> s == [] || !IsSpace(s[0])
    ensures forall k :: 0 <= k < |s| && !IsSpace(s[k]) ==> |TrimFront(s)| >= |s| - k
  {
    if s != [] && IsSpace(s[0]) {
      TrimFrontIsSuffix(s[1..]);
      forall k | 0 <= k < |s| && !IsSpace(s[k]) ensures |TrimFront(s)| >= |s| - k {
        assert s[1..][k - 1] == s[k];
      }
    }
  }

  lemma SuffixKeepsShape(name: string, v: string)
    requires IsLower(name) && NoSeparator(name) && HasExtension(name)
    requires 4 <= |v| <= |name| && name[|name| - |v|..] == v
    ensures IsLower(v) && NoSeparator(v) && HasExtension(v)
  {
    assert forall i :: 0 <= i < |v| ==> v[i] == name[|name| - |v| + i];
  }

  lemma NothingToTrimBehind(v: string)
    requires HasExtension(v)
    ensures TrimBack(v) == v
  {
  }

  // Normalising a name that came out of normalisation only trims its front.
  lemma NormalizeNormalized(name: string)
    requires IsLower(name) && NoSeparator(name) && HasExtension(name)
    ensures Normalize(name) == TrimFront(name)
  {
    hide TrimFront, TrimBack, BaseName, Lower;
    TrimFrontIsSuffix(name);
    assert !IsSpace(name[|name| - 4]);
    var v := TrimFront(name);
    SuffixKeepsShape(name, v);
    NothingToTrimBehind(v);
    BaseNameHasNoSeparator(v);
    LowerIsLower(v);
  }

  lemma ExtensionKeepsShape(s: string)
    requires IsLower(s) && NoSeparator(s)
    ensures IsLower(WithExtension(s)) && NoSeparator(WithExtension(s)) && HasExtension(WithExtension(s))
  {
    var r := WithExtension(s);
    forall i | 0 <= i < |r| ensures !('A' <= r[i] <= 'Z') && !IsSeparator(r[i]) {
      if i < |s| { assert r[i] == s[i]; }
    }
  }

  lemma NormalizedShape(raw: string)
    ensures Normalize(raw) != [] ==>
      IsLower(Normalize(raw)) && NoSeparator(Normalize(raw)) && HasExtension(Normalize(raw))
  {
    hide TrimFront, TrimBack, BaseName, Lower, IsLower, NoSeparator, HasExtension, WithExtension;
    var base := BaseName(TrimBack(TrimFront(raw)));
    BaseNameHasNoSeparator(TrimBack(TrimFront(raw)));
    LowerIsLower(base);
    ExtensionKeepsShape(Lower(base));
  }

  // Normalising twice is normalising once, exactly when the name does not start with a
  // space: one after the last separator survives the first pass and is lost in the second.
  lemma NormalizeTwice(raw: string)
    ensures Normalize(Normalize(raw)) == Normalize(raw)
            <==> Normalize(raw) == [] || !IsSpace(Normalize(raw)[0])
  {
    hide *;
    var name := Normalize(raw);
    if name == [] {
      NormalizeNothing();
    } else {
      NormalizedShape(raw);
      NormalizeNormalized(name);
      TrimFrontIsSuffix(name);
    }
  }

  lemma NormalizeNothing()
    ensures Normalize([]) == []
  {
  }
}
