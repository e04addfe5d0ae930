// The order in which src/backend/proton_runtime.cpp sorts the entries of an application: by
// their generic path text. It puts every directory before what it contains.
module PathOrder {
  import opened FileSystem

  datatype SourceEntry = SourceEntry(relative: Path, directory: bool)

  // generic_string: the components separated by slashes.
  function Generic(p: Path): string {
    if p == [] then [] else if |p| == 1 then p[0] else Generic(p[..|p| - 1]) + ['/'] + p[|p| - 1]
  }

  // operator< of std::string.
  predicate Less(a: string, b: string) {
    b != [] && (a == [] || a[0] < b[0] || (a[0] == b[0] && Less(a[1..], b[1..])))
  }

  predicate Sorted(entries: seq<SourceEntry>) {
    forall i, j :: 0 <= i < j < |entries| ==> !Less(Generic(entries[j].relative), Generic(entries[i].relative))
  }

  // No entry comes before a directory that contains it.
  predicate ParentsComeFirst(entries: seq<SourceEntry>) {
    forall i, j :: 0 <= i < j < |entries| && entries[j].relative != [] ==> !(entries[j].relative < entries[i].relative)
  }

  lemma {:induction false} LessTransitive(a: string, b: string, c: string)
    requires Less(a, b) && Less(b, c)
    ensures Less(a, c)
  {
    if a != [] && a[0] == b[0] && b[0] == c[0] { LessTransitive(a[1..], b[1..], c[1..]); }
  }

  lemma {:induction false} PrefixIsLess(a: string, b: string)
    requires a < b
    ensures Less(a, b)
  {
    if a != [] { PrefixIsLess(a[1..], b[1..]); }
  }

  lemma {:induction false} GenericPrefix(p: Path, q: Path)
    requires p != [] && p < q
    ensures Generic(p) < Generic(q)
    decreases |q|
  {
    var init := q[..|q| - 1];
    if p != init { GenericPrefix(p, init); }
    assert Generic(q) == Generic(init) + ['/'] + q[|q| - 1];
  }

  lemma SortedMeansParentsFirst(entries: seq<SourceEntry>)
    requires Sorted(entries)
    ensures ParentsComeFirst(entries)
  {
    hide Less, Generic;
    forall i, j | 0 <= i < j < |entries| && entries[j].relative != []
      ensures !(entries[j].relative < entries[i].relative)
    {
      if entries[j].relative < entries[i].relative {
        GenericPrefix(entries[j].relative, entries[i].relative);
        PrefixIsLess(Generic(entries[j].relative), Generic(entries[i].relative));
      }
    }
  }

  // std::sort.
  method SortEntries(entries: seq<SourceEntry>) returns (sorted: seq<SourceEntry>)
    ensures Sorted(sorted) && multiset(sorted) == multiset(entries)
  {
    hide Less, Generic;
    sorted := [];
    for k := 0 to |entries|
      invariant Sorted(sorted) && multiset(sorted) == multiset(entries[..k])
    {
      assert entries[..k + 1] == entries[..k] + [entries[k]];
      sorted := InsertEntry(sorted, entries[k]);
    }
    assert entries[..|entries|] == entries;
  }

  method InsertEntry(sorted: seq<SourceEntry>, e: SourceEntry) returns (more: seq<SourceEntry>)
    requires Sorted(sorted)
    ensures Sorted(more) && multiset(more) == multiset(sorted) + multiset{e}
  {
    hide Less, Generic;
    var k := 0;
    while k < |sorted| && !Less(Generic(e.relative), Generic(sorted[k].relative))
      invariant k <= |sorted| && forall i :: 0 <= i < k ==> !Less(Generic(e.relative), Generic(sorted[i].relative))
    {
      k := k + 1;
    }
    assert sorted == sorted[..k] + sorted[k..];
    more := sorted[..k] + [e] + sorted[k..];
    forall j | k <= j < |sorted| ensures !Less(Generic(sorted[j].relative), Generic(e.relative)) {
      if Less(Generic(sorted[j].relative), Generic(e.relative)) {
        LessTransitive(Generic(sorted[j].relative), Generic(e.relative), Generic(sorted[k].relative));
        LessIrreflexive(Generic(sorted[j].relative));
      }
    }
    InsertedSorted(sorted, e, k);
  }

  lemma {:induction false} LessIrreflexive(a: string)
    ensures !Less(a, a)
  {
    if a != [] { LessIrreflexive(a[1..]); }
  }

  lemma InsertedSorted(sorted: seq<SourceEntry>, e: SourceEntry, k: nat)
    requires Sorted(sorted) && k <= |sorted|
    requires forall i :: 0 <= i < k ==> !Less(Generic(e.relative), Generic(sorted[i].relative))
    requires forall j :: k <= j < |sorted| ==> !Less(Generic(sorted[j].relative), Generic(e.relative))
    ensures Sorted(sorted[..k] + [e] + sorted[k..])
  {
    hide Less, Generic;
    var all := sorted[..k] + [e] + sorted[k..];
    forall i, j | 0 <= i < j < |all| ensures !Less(Generic(all[j].relative), Generic(all[i].relative)) {
      var x, y := if i < k then i else i - 1, if j < k then j else j - 1;
      if i != k { assert all[i] == sorted[x]; }
      if j != k { assert all[j] == sorted[y]; }
    }
  }
}
