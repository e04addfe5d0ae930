// Staging an application for Proton (src/backend/proton_runtime.cpp): its directory is copied
// below the Proton prefix without touching anything that is there, or everything created is
// removed again.
module ProtonStaging {
  import opened LittleEndian
  import opened FileSystem
  import opened FileCopy
  import opened PathOrder

  datatype Created = Created(path: Path, directory: bool, id: nat)

  datatype Verdict = Fine | FinalNotDirectory | Bad

  // ---------------------------------------------------------------- what has been created

  predicate CreatedAt(c: Created, m: Made) {
    c == Created(m.path, m.node.content == Directory, m.node.id)
        && (m.node.content == Directory || m.node.content.File?)
  }

  // The entries are those of the nodes from number n on.
  ghost predicate Matches(created: seq<Created>, made: seq<Made>, n: nat) {
    n + |created| <= |made| && forall i :: 0 <= i < |created| ==> CreatedAt(created[i], made[n + i])
  }

  // The tree is the initial one with exactly the listed nodes added.
  ghost predicate Tracks(initial: Tree, made: seq<Made>, created: seq<Created>, tree: Tree) {
    TracksUpTo(initial, made, created, None, tree)
  }

  // The same, with a node that was created but is not listed.
  ghost predicate TracksUpTo(initial: Tree, made: seq<Made>, created: seq<Created>, orphan: Option<Made>, tree: Tree) {
    && |made| == |created| && Matches(created, made, 0)
    && Laid(initial, Everything(made, orphan)) && tree == Built(initial, Everything(made, orphan))
  }

  lemma TracksNothing(t: Tree)
    requires WellFormed(t)
    ensures Tracks(t, [], [], t)
  {
  }

  lemma TracksMore(initial: Tree, made: seq<Made>, created: seq<Created>, now: seq<Made>, c: Created)
    requires Tracks(initial, made, created, Built(initial, made)) && Laid(initial, now)
    requires |now| == |made| + 1 && now[..|made|] == made && CreatedAt(c, now[|made|])
    ensures Tracks(initial, now, created + [c], Built(initial, now))
  {
    hide Laid, Built;
    forall i | 0 <= i < |now| ensures CreatedAt((created + [c])[i], now[i]) {
      if i < |made| { assert now[i] == made[i]; }
    }
  }

  lemma UntrackedNext(initial: Tree, made: seq<Made>, created: seq<Created>, orphan: Option<Made>)
    requires Tracks(initial, made, created, Built(initial, made)) && Laid(initial, Everything(made, orphan))
    ensures TracksUpTo(initial, made, created, orphan, Built(initial, Everything(made, orphan)))
  {
  }

  // ---------------------------------------------------------------- looking at paths

  // On the way from root to a path below it there are only directories, up to the last
  // component, which is no link.
  ghost predicate WayOk(t: Tree, root: Path, relative: Path, finalDirectory: bool) {
    && IsDirectory(t, root)
    && forall n: nat :: 0 < n <= |relative| && root + relative[..n] in t ==>
      StepOk(t, root, relative, n, finalDirectory)
  }

  ghost predicate StepOk(t: Tree, root: Path, relative: Path, n: nat, finalDirectory: bool)
    requires n <= |relative|
  {
    if n < |relative| || finalDirectory then IsDirectory(t, root + relative[..n])
    else root + relative[..n] in t && t[root + relative[..n]].content != Link
  }

  // validate_path_without_symlinks.
  method ValidatePath(disk: Disk, root: Path, relative: Path, finalDirectory: bool) returns (verdict: Verdict)
    modifies disk`faults
    ensures disk.OnlyWork(old(disk.faults))
    ensures !verdict.Bad? ==> disk.faults == old(disk.faults) && IsDirectory(disk.tree, root)
    ensures verdict.Fine? ==> WayOk(disk.tree, root, relative, finalDirectory)
    ensures verdict.FinalNotDirectory? ==> !WayOk(disk.tree, root, relative, finalDirectory)
    ensures disk.faults == old(disk.faults) && WayOk(disk.tree, root, relative, finalDirectory) ==> verdict.Fine?
  {
    var top := disk.Lstat(root, Work);
    if !top.Found? || top.node.content != Directory { return Bad; }
    for n := 1 to |relative| + 1
      invariant disk.faults == old(disk.faults)
      invariant forall m: nat :: 0 < m < n && root + relative[..m] in disk.tree ==>
                  StepOk(disk.tree, root, relative, m, finalDirectory)
    {
      var s := disk.Lstat(root + relative[..n], Work);
      if s.Unreadable? { return Bad; }
      if s.Found? {
        if s.node.content == Link { return Bad; }
        if n < |relative| && s.node.content != Directory { return Bad; }
        if n == |relative| && finalDirectory && s.node.content != Directory {
          assert !StepOk(disk.tree, root, relative, n, finalDirectory);
          return FinalNotDirectory;
        }
      }
    }
    return Fine;
  }

  // ---------------------------------------------------------------- directories

  ghost predicate AllDirectories(t: Tree, root: Path, relative: Path) {
    forall n: nat :: n <= |relative| ==> IsDirectory(t, root + relative[..n])
  }

  // What is new since made lies on the way from root to a path.
  ghost predicate OnlyOnTheWay(made: seq<Made>, now: seq<Made>, root: Path, relative: Path) {
    made <= now && forall i :: |made| <= i < |now| ==>
      IsOnTheWay(now[i].path, root, relative) && now[i].node.content == Directory
  }

  ghost predicate IsOnTheWay(p: Path, root: Path, relative: Path) {
    exists n: nat :: 0 < n <= |relative| && p == root + relative[..n]
  }

  // ensure_directory_path: the missing directories on the way are created, one by one.
  method EnsureDirectoryPath(disk: Disk, root: Path, relative: Path, created: seq<Created>,
                             ghost initial: Tree, ghost made: seq<Made>)
    returns (ok: bool, more: seq<Created>, ghost now: seq<Made>, ghost orphan: Option<Made>)
    requires disk.Valid() && Tracks(initial, made, created, disk.tree)
    modifies disk
    ensures disk.Valid() && disk.NoUndo(old(disk.faults)) && disk.faults.fileProbe == old(disk.faults.fileProbe)
    ensures TracksUpTo(initial, now, more, orphan, disk.tree) && OnlyOnTheWay(made, now, root, relative)
    ensures Keeps(old(disk.tree), disk.tree)
    ensures orphan.Some? <==> disk.faults.directoryProbe > old(disk.faults.directoryProbe)
    ensures ok ==> disk.faults == old(disk.faults) && AllDirectories(disk.tree, root, relative)
    ensures ok ==> WayOk(old(disk.tree), root, relative, true)
    ensures ok && DirectoryProbe in disk.dead ==> now == made
    ensures disk.faults == old(disk.faults) && WayOk(old(disk.tree), root, relative, true) ==> ok
  {
    hide Laid, Built, WellFormed, Identified, OnlyOnTheWay, WayOk, TracksUpTo;
    more, now, orphan := created, made, None;
    NothingOnTheWay(made, root, relative);
    var verdict := ValidatePath(disk, root, relative, true);
    if verdict.Bad? { return false, more, now, orphan; }
    ghost var start := disk.tree;
    assert root + relative[..0] == root;
    for n := 1 to |relative| + 1
      invariant disk.Valid() && disk.faults == old(disk.faults) && orphan.None?
      invariant Tracks(initial, now, more, disk.tree) && OnlyOnTheWay(made, now, root, relative)
      invariant SameFrom(start, disk.tree, |root| + n) && (DirectoryProbe in disk.dead ==> now == made)
      invariant forall m: nat :: m < n ==> IsDirectory(disk.tree, root + relative[..m])
    {
      ghost var before := disk.tree;
      ok, more, now, orphan := EnsureNext(disk, root, relative, n, more, initial, made, now);
      SameFromMore(start, before, disk.tree, |root| + n);
      if !ok {
        if WayOk(start, root, relative, true) { WayStep(start, root, relative, n); }
        return;
      }
    }
    WayWasOk(start, disk.tree, root, relative);
    ok := true;
  }

  // One turn of its loop.
  method EnsureNext(disk: Disk, root: Path, relative: Path, n: nat, created: seq<Created>, ghost initial: Tree,
                    ghost made: seq<Made>, ghost was: seq<Made>)
    returns (ok: bool, more: seq<Created>, ghost now: seq<Made>, ghost orphan: Option<Made>)
    requires disk.Valid() && Tracks(initial, was, created, disk.tree) && OnlyOnTheWay(made, was, root, relative)
    requires 0 < n <= |relative| && IsDirectory(disk.tree, root + relative[..n - 1])
    modifies disk
    ensures disk.Valid() && disk.NoUndo(old(disk.faults)) && disk.faults.fileProbe == old(disk.faults.fileProbe)
    ensures TracksUpTo(initial, now, more, orphan, disk.tree) && OnlyOnTheWay(made, now, root, relative)
    ensures SameFrom(old(disk.tree), disk.tree, |root| + n + 1)
    ensures orphan.Some? <==> disk.faults.directoryProbe > old(disk.faults.directoryProbe)
    ensures ok ==> disk.faults == old(disk.faults) && IsDirectory(disk.tree, root + relative[..n])
    ensures ok && DirectoryProbe in disk.dead ==> now == was
    ensures !ok && disk.faults == old(disk.faults) ==>
              root + relative[..n] in old(disk.tree) && !IsDirectory(old(disk.tree), root + relative[..n])
  {
    hide Laid, Built, WellFormed, Identified, OnlyOnTheWay, TracksUpTo;
    more, now, orphan := created, was, None;
    var current := root + relative[..n];
    assert Parent(current) == root + relative[..n - 1];
    var s := disk.Lstat(current, Work);
    if s.Unreadable? { return false, more, now, orphan; }
    if s.Found? { return s.node.content == Directory, more, now, orphan; }
    TracksMeans(initial, was, more, disk.tree);
    var e, id;
    e, id, now, orphan := MakeDirectory(disk, current, initial, now);
    if e == Exists { return true, more, now, orphan; }
    if id.None? {
      UntrackedNext(initial, was, more, orphan);
      return false, more, now, orphan;
    }
    OneMoreOnTheWay(made, was, now, root, relative, n);
    TracksMore(initial, was, more, now, Created(current, true, id.value));
    more := more + [Created(current, true, id.value)];
    ok := true;
  }

  lemma SameFromMore(start: Tree, before: Tree, now: Tree, n: nat)
    requires SameFrom(start, before, n) && SameFrom(before, now, n + 1)
    ensures SameFrom(start, now, n + 1)
  {
  }

  // Nodes are only added, and only with paths shorter than n.
  ghost predicate SameFrom(before: Tree, after: Tree, n: nat) {
    && Keeps(before, after)
    && (forall p :: p in after && |p| >= n ==> p in before)
  }

  lemma WayStep(t: Tree, root: Path, relative: Path, n: nat)
    requires WayOk(t, root, relative, true) && 0 < n <= |relative|
    ensures root + relative[..n] in t ==> IsDirectory(t, root + relative[..n])
  {
  }

  lemma WayWasOk(before: Tree, after: Tree, root: Path, relative: Path)
    requires SameFrom(before, after, 0 + |root| + |relative| + 1) && IsDirectory(before, root)
    requires forall m: nat :: m <= |relative| ==> IsDirectory(after, root + relative[..m])
    ensures WayOk(before, root, relative, true)
  {
  }

  lemma OneMoreOnTheWay(made: seq<Made>, before: seq<Made>, now: seq<Made>, root: Path, relative: Path, n: nat)
    requires OnlyOnTheWay(made, before, root, relative) && |now| == |before| + 1 && now[..|before|] == before
    requires 0 < n <= |relative| && now[|before|].path == root + relative[..n]
    requires now[|before|].node.content == Directory
    ensures OnlyOnTheWay(made, now, root, relative)
  {
    forall i | |made| <= i < |now|
      ensures IsOnTheWay(now[i].path, root, relative) && now[i].node.content == Directory
    {
      if i < |before| { assert now[i] == before[i]; }
    }
  }

  lemma NothingOnTheWay(made: seq<Made>, root: Path, relative: Path)
    ensures OnlyOnTheWay(made, made, root, relative)
  {
  }

  // ---------------------------------------------------------------- the application

  ghost predicate Below(p: Path, root: Path) { root < p }

  function Relative(p: Path, root: Path): Path { if |root| <= |p| then p[|root|..] else [] }

  // A directory with only directories and regular files in it.
  ghost predicate Copyable(t: Tree, root: Path) {
    && IsDirectory(t, root)
    && forall p :: p in t && Below(p, root) ==> t[p].content == Directory || t[p].content.File?
  }

  // The entries are what lies below root, each once.
  ghost predicate Lists(t: Tree, root: Path, entries: seq<SourceEntry>) {
    && (forall i :: 0 <= i < |entries| ==> EntryFor(t, root, entries[i]))
    && (forall i, j :: 0 <= i < j < |entries| ==> entries[i].relative != entries[j].relative)
    && forall p :: p in t && Below(p, root) ==> Listed(entries, Relative(p, root))
  }

  ghost predicate EntryFor(t: Tree, root: Path, e: SourceEntry) {
    && e.relative != [] && root + e.relative in t
    && (if e.directory then IsDirectory(t, root + e.relative) else IsRegular(t, root + e.relative))
  }

  ghost predicate Listed(entries: seq<SourceEntry>, relative: Path) {
    exists i :: 0 <= i < |entries| && entries[i].relative == relative
  }

  // collect_source_entries. The directory is walked in any order, then sorted.
  method CollectSourceEntries(disk: Disk, root: Path) returns (ok: bool, entries: seq<SourceEntry>)
    modifies disk`faults
    ensures disk.OnlyWork(old(disk.faults))
    ensures ok ==> Copyable(disk.tree, root) && Lists(disk.tree, root, entries) && ParentsComeFirst(entries)
    ensures disk.faults == old(disk.faults) && Copyable(disk.tree, root) ==> ok
  {
    hide Sorted, Lists, EntryFor, Walked, ParentsComeFirst;
    entries := [];
    var top := disk.Lstat(root, Work);
    if !top.Found? || top.node.content != Directory { return false, entries; }
    var rest := set p | p in disk.tree && root <= p && root != p;
    var all := rest;
    NothingWalked(disk.tree, root);
    assert all - rest == {};
    while rest != {}
      invariant disk.OnlyWork(old(disk.faults)) && rest <= all
      invariant Walked(disk.tree, root, all - rest, entries)
      decreases rest
    {
      var p :| p in rest;
      var s := disk.Lstat(p, Work);
      if s.Unreadable? || s.Missing? { return false, entries; }
      if s.node.content != Directory && !s.node.content.File? {
        assert Below(p, root);
        return false, entries;
      }
      WalkedMore(disk.tree, root, all - rest, entries, p);
      assert all - (rest - {p}) == (all - rest) + {p};
      rest := rest - {p};
      entries := entries + [SourceEntry(p[|root|..], s.node.content == Directory)];
    }
    ghost var walked := entries;
    entries := SortEntries(entries);
    SortedMeansParentsFirst(entries);
    assert all - rest == all;
    WalkedAll(disk.tree, root, all, walked, entries);
    ok := true;
  }

  // The entries so far are those of the paths walked.
  ghost predicate Walked(t: Tree, root: Path, done: set<Path>, entries: seq<SourceEntry>) {
    && (forall i :: 0 <= i < |entries| ==> EntryFor(t, root, entries[i]) && root + entries[i].relative in done)
    && (forall p :: p in done ==> root < p && Listed(entries, Relative(p, root)))
    && (forall i, j :: 0 <= i < j < |entries| ==> entries[i].relative != entries[j].relative)
  }

  lemma NothingWalked(t: Tree, root: Path)
    ensures Walked(t, root, {}, [])
  {
  }

  lemma WalkedMore(t: Tree, root: Path, done: set<Path>, entries: seq<SourceEntry>, p: Path)
    requires Walked(t, root, done, entries) && p in t && root < p && p !in done
    requires t[p].content == Directory || t[p].content.File?
    ensures Walked(t, root, done + {p}, entries + [SourceEntry(p[|root|..], t[p].content == Directory)])
  {
    hide EntryFor, Listed;
    var e := SourceEntry(p[|root|..], t[p].content == Directory);
    var all := entries + [e];
    assert root + e.relative == p;
    assert EntryFor(t, root, e) by { NewEntry(t, root, e); }
    forall q | q in done + {p} ensures root < q && Listed(all, Relative(q, root)) {
      ListedStill(entries, e, Relative(q, root));
    }
    forall i, j | 0 <= i < j < |all| ensures all[i].relative != all[j].relative {
      assert all[i] == entries[i];
      if j == |entries| { assert root + entries[i].relative in done; }
    }
  }

  lemma ListedStill(entries: seq<SourceEntry>, e: SourceEntry, relative: Path)
    requires Listed(entries, relative) || e.relative == relative
    ensures Listed(entries + [e], relative)
  {
    var all := entries + [e];
    assert all[|entries|] == e;
    if Listed(entries, relative) {
      var i :| 0 <= i < |entries| && entries[i].relative == relative;
      assert all[i] == entries[i];
    }
  }

  lemma NewEntry(t: Tree, root: Path, e: SourceEntry)
    requires e.relative != [] && root + e.relative in t
    requires if e.directory then IsDirectory(t, root + e.relative) else IsRegular(t, root + e.relative)
    ensures EntryFor(t, root, e)
  {
  }

  lemma WalkedAll(t: Tree, root: Path, all: set<Path>, walked: seq<SourceEntry>, entries: seq<SourceEntry>)
    requires Walked(t, root, all, walked) && multiset(entries) == multiset(walked) && IsDirectory(t, root)
    requires forall p :: p in all <==> p in t && root <= p && root != p
    ensures Lists(t, root, entries) && Copyable(t, root)
  {
    hide EntryFor;
    forall e ensures e in entries <==> e in walked { assert e in multiset(entries) <==> e in multiset(walked); }
    forall i | 0 <= i < |entries| ensures EntryFor(t, root, entries[i]) { assert entries[i] in walked; }
    forall p | p in t && Below(p, root)
      ensures Listed(entries, Relative(p, root)) && (t[p].content == Directory || t[p].content.File?)
    {
      assert p in all;
      var i :| 0 <= i < |walked| && walked[i].relative == Relative(p, root);
      assert walked[i] in entries;
      EntryKind(t, root, walked[i], p);
    }
    DistinctAfterSort(walked, entries);
  }

  lemma EntryKind(t: Tree, root: Path, e: SourceEntry, p: Path)
    requires EntryFor(t, root, e) && e.relative == Relative(p, root) && root < p
    ensures p in t && (t[p].content == Directory || t[p].content.File?)
  {
    assert root + e.relative == p;
  }

  lemma DistinctAfterSort(walked: seq<SourceEntry>, entries: seq<SourceEntry>)
    requires multiset(entries) == multiset(walked)
    requires forall i, j :: 0 <= i < j < |walked| ==> walked[i].relative != walked[j].relative
    ensures forall i, j :: 0 <= i < j < |entries| ==> entries[i].relative != entries[j].relative
  {
    forall i, j | 0 <= i < j < |entries| ensures entries[i].relative != entries[j].relative {
      assert entries[i] in multiset(walked) && entries[j] in multiset(walked);
      var x :| 0 <= x < |walked| && walked[x] == entries[i];
      var y :| 0 <= y < |walked| && walked[y] == entries[j];
      if x == y {
        TwiceMeansTwo(entries, i, j);
        OnceMeansOne(walked, x);
      }
    }
  }

  lemma TwiceMeansTwo(s: seq<SourceEntry>, i: nat, j: nat)
    requires i < j < |s| && s[i] == s[j]
    ensures multiset(s)[s[i]] >= 2
  {
    assert s == s[..i] + [s[i]] + s[i + 1..j] + [s[j]] + s[j + 1..];
  }

  lemma {:induction false} OnceMeansOne(s: seq<SourceEntry>, x: nat)
    requires x < |s| && forall i, j :: 0 <= i < j < |s| ==> s[i].relative != s[j].relative
    ensures multiset(s)[s[x]] == 1
  {
    assert s == s[..x] + [s[x]] + s[x + 1..];
    assert s[x] !in s[..x] && s[x] !in s[x + 1..];
  }

  // ---------------------------------------------------------------- comparing

  // files_equal: whether two files hold the same bytes, read buffer by buffer.
  method FilesEqual(disk: Disk, source: Path, target: Path) returns (equal: bool)
    requires IsRegular(disk.tree, source) && IsRegular(disk.tree, target)
    modifies disk`faults
    ensures disk.OnlyWork(old(disk.faults))
    ensures equal ==> disk.tree[source].content == disk.tree[target].content
    ensures disk.faults == old(disk.faults) && disk.tree[source].content == disk.tree[target].content ==> equal
  {
    var broken := disk.Flaky(Work);
    if broken { return false; }
    var a, b := disk.tree[source].content.data, disk.tree[target].content.data;
    if |a| != |b| { return false; }
    var offset := 0;
    while offset < |a|
      invariant offset <= |a| && a[..offset] == b[..offset]
    {
      var count := if |a| - offset < BUFFER_SIZE then |a| - offset else BUFFER_SIZE;
      if a[offset..offset + count] != b[offset..offset + count] { return false; }
      assert a[..offset + count] == a[..offset] + a[offset..offset + count];
      assert b[..offset + count] == b[..offset] + b[offset..offset + count];
      offset := offset + count;
    }
    assert a[..|a|] == a && b[..|b|] == b;
    return true;
  }

  // Where an entry goes: nothing in the way, and what is there already is the same.
  ghost predicate Compatible(t: Tree, source: Path, drive: Path, relative: Path, e: SourceEntry) {
    && WayOk(t, drive, relative + e.relative, e.directory)
    && (drive + (relative + e.relative) in t && source + e.relative in t ==>
          t[drive + (relative + e.relative)].content == t[source + e.relative].content)
  }

  ghost predicate AllCompatible(t: Tree, source: Path, drive: Path, relative: Path, entries: seq<SourceEntry>) {
    forall i :: 0 <= i < |entries| ==> Compatible(t, source, drive, relative, entries[i])
  }

  // preflight_entries. A target root that is no directory is only noticed by copy_entries.
  method Preflight(disk: Disk, source: Path, drive: Path, relative: Path, entries: seq<SourceEntry>) returns (ok: bool)
    requires forall i :: 0 <= i < |entries| ==> EntryFor(disk.tree, source, entries[i])
    modifies disk`faults
    ensures disk.OnlyWork(old(disk.faults))
    ensures ok ==> AllCompatible(disk.tree, source, drive, relative, entries)
    ensures AllCompatible(disk.tree, source, drive, relative, entries) ==>
              (disk.faults == old(disk.faults) && WayOk(disk.tree, drive, relative, true) ==> ok)
  {
    hide WayOk;
    var verdict := ValidatePath(disk, drive, relative, true);
    if verdict.Bad? { return false; }
    for k := 0 to |entries|
      invariant disk.OnlyWork(old(disk.faults))
      invariant forall i :: 0 <= i < k ==> Compatible(disk.tree, source, drive, relative, entries[i])
    {
      var e := entries[k];
      assert EntryFor(disk.tree, source, e);
      var target := drive + (relative + e.relative);
      var way := ValidatePath(disk, drive, relative + e.relative, e.directory);
      if !way.Fine? { return false; }
      var s := disk.Lstat(target, Work);
      if s.Unreadable? { return false; }
      if s.Found? {
        if e.directory {
          if s.node.content != Directory { return false; }
        } else {
          if !s.node.content.File? { return false; }
          var equal := FilesEqual(disk, source + e.relative, target);
          if !equal { return false; }
        }
      }
    }
    return true;
  }

  // ---------------------------------------------------------------- copying

  // An entry has arrived with what the source held.
  ghost predicate EntryStaged(initial: Tree, now: Tree, source: Path, base: Path, e: SourceEntry) {
    && base + e.relative in now && source + e.relative in initial
    && now[base + e.relative].content == initial[source + e.relative].content
  }

  ghost predicate FirstStaged(initial: Tree, now: Tree, source: Path, base: Path, entries: seq<SourceEntry>, k: nat) {
    k <= |entries| && forall j :: 0 <= j < k ==> EntryStaged(initial, now, source, base, entries[j])
  }

  // What was created leads to the target root, or is the target of one of the first k entries.
  ghost predicate NewTargets(made: seq<Made>, drive: Path, relative: Path, entries: seq<SourceEntry>, k: nat) {
    k <= |entries| && forall i :: 0 <= i < |made| ==>
      IsOnTheWay(made[i].path, drive, relative) || IsTarget(made[i].path, drive + relative, entries, k)
  }

  ghost predicate IsTarget(p: Path, base: Path, entries: seq<SourceEntry>, k: nat)
    requires k <= |entries|
  {
    exists j :: 0 <= j < k && p == base + entries[j].relative
  }

  // Copying in order: what holds before entry k.
  ghost predicate Progress(initial: Tree, now: Tree, made: seq<Made>, created: seq<Created>, source: Path, drive: Path,
                           relative: Path, entries: seq<SourceEntry>, k: nat)
  {
    && Tracks(initial, made, created, now) && AllDirectories(now, drive, relative)
    && FirstStaged(initial, now, source, drive + relative, entries, k) && NewTargets(made, drive, relative, entries, k)
  }

  ghost predicate Plan(t: Tree, source: Path, drive: Path, relative: Path, entries: seq<SourceEntry>) {
    && WellFormed(t) && Lists(t, source, entries) && ParentsComeFirst(entries)
    && AllCompatible(t, source, drive, relative, entries)
  }

  lemma {:induction false} PrefixIsDirectory(t: Tree, p: Path, n: nat)
    requires WellFormed(t) && p in t && n < |p|
    ensures IsDirectory(t, p[..n])
    decreases |p|
  {
    assert IsDirectory(t, Parent(p));
    if n < |p| - 1 {
      PrefixIsDirectory(t, Parent(p), n);
      assert Parent(p)[..n] == p[..n];
    }
  }

  // The directories an entry lies in are entries before it.
  lemma AncestorListed(t: Tree, source: Path, entries: seq<SourceEntry>, k: nat, m: nat) returns (j: nat)
    requires WellFormed(t) && Lists(t, source, entries) && ParentsComeFirst(entries)
    requires k < |entries| && 0 < m < |entries[k].relative|
    ensures j < k && entries[j].relative == entries[k].relative[..m] && IsDirectory(t, source + entries[j].relative)
  {
    hide WellFormed, Listed, EntryFor, Copyable;
    var e := entries[k];
    assert EntryFor(t, source, e);
    EntryExists(t, source, e);
    AncestorIsDirectory(t, source, e.relative, m);
    j := IndexOf(entries, e.relative[..m]);
    assert entries[j].relative < e.relative;
  }

  lemma EntryExists(t: Tree, source: Path, e: SourceEntry)
    requires EntryFor(t, source, e)
    ensures source + e.relative in t
  {
  }

  lemma IndexOf(entries: seq<SourceEntry>, relative: Path) returns (j: nat)
    requires Listed(entries, relative)
    ensures j < |entries| && entries[j].relative == relative
  {
    j :| 0 <= j < |entries| && entries[j].relative == relative;
  }

  lemma AncestorIsDirectory(t: Tree, source: Path, relative: Path, m: nat)
    requires WellFormed(t) && source + relative in t && 0 < m < |relative|
    ensures var p := source + relative[..m];
      IsDirectory(t, p) && Below(p, source) && Relative(p, source) == relative[..m]
  {
    hide WellFormed;
    PrefixIsDirectory(t, source + relative, |source| + m);
    assert (source + relative)[..|source| + m] == source + relative[..m];
  }

  // The way to the target of entry k: up to the last component everything is there and a
  // directory, and the target itself is there only if it was to begin with.
  lemma WayToEntry(initial: Tree, now: Tree, made: seq<Made>, created: seq<Created>, source: Path, drive: Path,
                   relative: Path, entries: seq<SourceEntry>, k: nat)
    requires Plan(initial, source, drive, relative, entries) && k < |entries|
    requires Progress(initial, now, made, created, source, drive, relative, entries, k)
    ensures var full := relative + entries[k].relative;
      && (forall n: nat :: n < |full| ==> IsDirectory(now, drive + full[..n]))
      && (drive + full in now <==> drive + full in initial)
  {
    hide Plan, Progress;
    AncestorsReady(initial, now, made, created, source, drive, relative, entries, k);
    TargetNotNew(initial, now, made, created, source, drive, relative, entries, k);
  }

  lemma AncestorsReady(initial: Tree, now: Tree, made: seq<Made>, created: seq<Created>, source: Path, drive: Path,
                       relative: Path, entries: seq<SourceEntry>, k: nat)
    requires Plan(initial, source, drive, relative, entries) && k < |entries|
    requires Progress(initial, now, made, created, source, drive, relative, entries, k)
    ensures var full := relative + entries[k].relative;
      forall n: nat :: n < |full| ==> IsDirectory(now, drive + full[..n])
  {
    hide WellFormed, Lists, Tracks, NewTargets, AllCompatible;
    var full := relative + entries[k].relative;
    forall n: nat | n < |full| ensures IsDirectory(now, drive + full[..n]) {
      if n <= |relative| { assert full[..n] == relative[..n]; }
      else {
        var m: nat := n - |relative|;
        var j := AncestorListed(initial, source, entries, k, m);
        assert full[..n] == relative + entries[j].relative;
        assert drive + (relative + entries[j].relative) == drive + relative + entries[j].relative;
        assert EntryStaged(initial, now, source, drive + relative, entries[j]);
      }
    }
  }

  lemma TargetNotNew(initial: Tree, now: Tree, made: seq<Made>, created: seq<Created>, source: Path, drive: Path,
                     relative: Path, entries: seq<SourceEntry>, k: nat)
    requires Plan(initial, source, drive, relative, entries) && k < |entries|
    requires Progress(initial, now, made, created, source, drive, relative, entries, k)
    ensures var p := drive + (relative + entries[k].relative); p in now <==> p in initial
  {
    hide WellFormed, Laid, Built, AllCompatible, FirstStaged;
    var p := drive + (relative + entries[k].relative);
    assert p == drive + relative + entries[k].relative;
    assert made[..|made|] == made;
    BuiltKeeps(initial, made, |made|);
    BuiltOnlyAdds(initial, made, |made|);
    assert EntryFor(initial, source, entries[k]);
    forall i | 0 <= i < |made| ensures made[i].path != p {
      if IsOnTheWay(made[i].path, drive, relative) { OnTheWayIsShort(made[i].path, drive, relative); }
      else {
        var j :| 0 <= j < k && made[i].path == drive + relative + entries[j].relative;
        OtherTarget(drive + relative, entries[j].relative, entries[k].relative);
      }
    }
  }

  lemma OnTheWayIsShort(p: Path, root: Path, relative: Path)
    requires IsOnTheWay(p, root, relative)
    ensures |p| <= |root| + |relative|
  {
  }

  lemma OtherTarget(base: Path, a: Path, b: Path)
    requires a != b
    ensures base + a != base + b
  {
    assert (base + a)[|base|..] == a && (base + b)[|base|..] == b;
  }

  // A created directory could not be queried, or a created file neither queried nor removed.
  predicate ProbeFailed(before: Faults, now: Faults) {
    now.directoryProbe > before.directoryProbe || (now.fileProbe > before.fileProbe && now.undo > before.undo)
  }

  // copy_entries.
  method CopyEntries(disk: Disk, source: Path, drive: Path, relative: Path, entries: seq<SourceEntry>)
    returns (ok: bool, created: seq<Created>, ghost made: seq<Made>, ghost orphan: Option<Made>)
    requires disk.Valid() && Plan(disk.tree, source, drive, relative, entries)
    modifies disk
    ensures disk.Valid() && disk.Since(old(disk.faults)) && TracksUpTo(old(disk.tree), made, created, orphan, disk.tree)
    ensures orphan.Some? <==> ProbeFailed(old(disk.faults), disk.faults)
    ensures disk.faults.undo > old(disk.faults.undo) ==> ProbeFailed(old(disk.faults), disk.faults)
    ensures ok ==> disk.faults == old(disk.faults) && WayOk(old(disk.tree), drive, relative, true)
                   && Progress(old(disk.tree), disk.tree, made, created, source, drive, relative, entries, |entries|)
    ensures disk.faults == old(disk.faults) && WayOk(old(disk.tree), drive, relative, true) ==> ok
  {
    hide Laid, Built, WellFormed, Identified, TracksUpTo, WayOk, Plan, Progress;
    ghost var initial := disk.tree;
    assert Tracks(initial, [], [], initial) by { TracksNothing(initial); }
    ok, created, made, orphan := EnsureDirectoryPath(disk, drive, relative, [], initial, []);
    if !ok { return; }
    StartProgress(initial, disk.tree, made, created, source, drive, relative, entries);
    for k := 0 to |entries|
      invariant disk.Valid() && disk.faults == old(disk.faults) && orphan.None?
      invariant Progress(initial, disk.tree, made, created, source, drive, relative, entries, k)
      invariant Tracks(initial, made, created, disk.tree)
    {
      ok, created, made, orphan := CopyEntry(disk, source, drive, relative, entries, k, created, initial, made);
      if !ok { return; }
    }
    ok := true;
  }

  lemma StartProgress(initial: Tree, now: Tree, made: seq<Made>, created: seq<Created>, source: Path, drive: Path,
                      relative: Path, entries: seq<SourceEntry>)
    requires Tracks(initial, made, created, now) && AllDirectories(now, drive, relative)
    requires OnlyOnTheWay([], made, drive, relative)
    ensures Progress(initial, now, made, created, source, drive, relative, entries, 0)
  {
  }

  // One turn of the loop of copy_entries.
  method CopyEntry(disk: Disk, source: Path, drive: Path, relative: Path, entries: seq<SourceEntry>, k: nat,
                   created: seq<Created>, ghost initial: Tree, ghost made: seq<Made>)
    returns (ok: bool, more: seq<Created>, ghost now: seq<Made>, ghost orphan: Option<Made>)
    requires disk.Valid() && Plan(initial, source, drive, relative, entries) && k < |entries|
    requires Progress(initial, disk.tree, made, created, source, drive, relative, entries, k)
    modifies disk
    ensures disk.Valid() && disk.Since(old(disk.faults)) && TracksUpTo(initial, now, more, orphan, disk.tree)
    ensures orphan.Some? <==> ProbeFailed(old(disk.faults), disk.faults)
    ensures disk.faults.undo > old(disk.faults.undo) ==> ProbeFailed(old(disk.faults), disk.faults)
    ensures ok ==> disk.faults == old(disk.faults)
                   && Progress(initial, disk.tree, now, more, source, drive, relative, entries, k + 1)
    ensures disk.faults == old(disk.faults) ==> ok
  {
    hide Laid, Built, WellFormed, Identified, TracksUpTo, WayOk, Plan, Progress, OnlyOnTheWay;
    more, now, orphan := created, made, None;
    ghost var before := disk.tree;
    ProgressTracks(initial, before, made, created, source, drive, relative, entries, k);
    WayToEntry(initial, before, made, created, source, drive, relative, entries, k);
    EntryFacts(initial, before, made, created, source, drive, relative, entries, k);
    TracksMeans(initial, made, created, before);
    var e := entries[k];
    var full := relative + e.relative;
    var target := drive + full;
    if e.directory {
      ok, more, now, orphan := EnsureDirectoryPath(disk, drive, full, created, initial, made);
      if ok {
        DirectoryStaged(initial, disk.tree, source, drive, relative, e);
        NewDirectoryOnly(initial, before, disk.tree, made, now, more, drive, full);
        ProgressMore(initial, before, disk.tree, made, now, created, more, source, drive, relative, entries, k);
      }
      return;
    }
    var s := disk.Lstat(target, Work);
    if s.Unreadable? { return false, more, now, orphan; }
    if s.Found? {
      ProgressMore(initial, before, disk.tree, made, now, created, more, source, drive, relative, entries, k);
      return true, more, now, orphan;
    }
    assert CanCreate(before, target) by {
      assert full[..|full| - 1] == Parent(full) && Parent(target) == drive + Parent(full);
    }
    var id;
    ok, id, now, orphan := CopyExclusive(disk, source + e.relative, target, initial, made);
    if id.Some? {
      TracksMore(initial, made, created, now, Created(target, false, id.value));
      more := more + [Created(target, false, id.value)];
    } else { UntrackedNext(initial, made, created, orphan); }
    if ok {
      AppendedKeeps(initial, made, now, target);
      assert target == drive + relative + e.relative;
      assert EntryStaged(initial, disk.tree, source, drive + relative, e);
      ProgressMore(initial, before, disk.tree, made, now, created, more, source, drive, relative, entries, k);
    }
  }

  lemma ProgressTracks(initial: Tree, now: Tree, made: seq<Made>, created: seq<Created>, source: Path, drive: Path,
                       relative: Path, entries: seq<SourceEntry>, k: nat)
    requires Progress(initial, now, made, created, source, drive, relative, entries, k)
    ensures Tracks(initial, made, created, now)
  {
  }

  lemma TracksMeans(initial: Tree, made: seq<Made>, created: seq<Created>, now: Tree)
    requires Tracks(initial, made, created, now)
    ensures Laid(initial, made) && now == Built(initial, made) && Keeps(initial, now)
  {
    assert made[..|made|] == made;
    BuiltKeeps(initial, made, |made|);
  }

  // What the plan says about entry k in the present tree.
  lemma EntryFacts(initial: Tree, now: Tree, made: seq<Made>, created: seq<Created>, source: Path, drive: Path,
                   relative: Path, entries: seq<SourceEntry>, k: nat)
    requires Plan(initial, source, drive, relative, entries) && k < |entries|
    requires Progress(initial, now, made, created, source, drive, relative, entries, k)
    ensures var e := entries[k]; var full := relative + e.relative;
      && EntryFor(initial, source, e) && full != []
      && (drive + full in now ==> EntryStaged(initial, now, source, drive + relative, e))
      && (e.directory ==> WayOk(now, drive, full, true))
  {
    hide Laid, Built, WellFormed, NewTargets;
    var e := entries[k];
    var full := relative + e.relative;
    assert drive + full == drive + relative + e.relative;
    TracksMeans(initial, made, created, now);
    WayToEntry(initial, now, made, created, source, drive, relative, entries, k);
    assert Compatible(initial, source, drive, relative, e) && EntryFor(initial, source, e);
    assert full[..0] == [] && drive + [] == drive;
    assert full[..|full|] == full;
  }

  // Making the directory of an entry whose parents are there creates at most that directory.
  lemma NewDirectoryOnly(initial: Tree, before: Tree, after: Tree, made: seq<Made>, now: seq<Made>,
                         created: seq<Created>, drive: Path, full: Path)
    requires Tracks(initial, now, created, after) && OnlyOnTheWay(made, now, drive, full)
    requires before == Built(initial, made)
    requires forall n: nat :: n < |full| ==> IsDirectory(before, drive + full[..n])
    ensures made <= now && forall i :: |made| <= i < |now| ==> now[i].path == drive + full
  {
    hide Built, WellFormed;
    forall i | |made| <= i < |now| ensures now[i].path == drive + full {
      assert now[..|made|] == made;
      assert now[..i][..|made|] == made;
      GrowsOnly(initial, made, now, i);
      assert AddsAt(initial, now, i);
      var n: nat :| 0 < n <= |full| && now[i].path == drive + full[..n];
      if n == |full| { assert full[..n] == full; }
    }
  }

  lemma DirectoryStaged(initial: Tree, now: Tree, source: Path, drive: Path, relative: Path, e: SourceEntry)
    requires EntryFor(initial, source, e) && e.directory && AllDirectories(now, drive, relative + e.relative)
    ensures EntryStaged(initial, now, source, drive + relative, e)
  {
    var full := relative + e.relative;
    assert full[..|full|] == full && drive + full == drive + relative + e.relative;
    assert IsDirectory(now, drive + full[..|full|]);
  }

  lemma AppendedKeeps(initial: Tree, made: seq<Made>, now: seq<Made>, target: Path)
    requires Laid(initial, now) && |now| == |made| + 1 && now[..|made|] == made
    ensures Keeps(Built(initial, made), Built(initial, now))
    ensures now[|made|].path in Built(initial, now) && Built(initial, now)[now[|made|].path] == now[|made|].node
  {
    hide Built;
    assert now[..|now|] == now;
    GrowsOnly(initial, made, now, |now|);
    BuiltHas(initial, now, |made|, |now|);
  }

  lemma ProgressMore(initial: Tree, before: Tree, after: Tree, made: seq<Made>, now: seq<Made>, created: seq<Created>,
                     more: seq<Created>, source: Path, drive: Path, relative: Path, entries: seq<SourceEntry>, k: nat)
    requires Progress(initial, before, made, created, source, drive, relative, entries, k) && k < |entries|
    requires Tracks(initial, now, more, after) && Keeps(before, after) && made <= now
    requires EntryStaged(initial, after, source, drive + relative, entries[k])
    requires forall i :: |made| <= i < |now| ==> now[i].path == drive + (relative + entries[k].relative)
    ensures Progress(initial, after, now, more, source, drive, relative, entries, k + 1)
  {
    hide Tracks;
    assert drive + (relative + entries[k].relative) == drive + relative + entries[k].relative;
    forall i | 0 <= i < |now|
      ensures IsOnTheWay(now[i].path, drive, relative) || IsTarget(now[i].path, drive + relative, entries, k + 1)
    {
      if i < |made| { assert now[i] == made[i]; }
    }
    forall j | 0 <= j < k + 1 ensures EntryStaged(initial, after, source, drive + relative, entries[j]) {
      if j < k { assert EntryStaged(initial, before, source, drive + relative, entries[j]); }
    }
  }

  // ---------------------------------------------------------------- undoing

  // Only recorded nodes are removed.
  ghost predicate RemovesCreated(before: Tree, after: Tree, created: seq<Created>) {
    && Keeps(after, before)
    && forall p :: p in before && p !in after ==> WasCreated(created, p, before[p].id)
  }

  ghost predicate WasCreated(created: seq<Created>, p: Path, id: nat) {
    exists i :: 0 <= i < |created| && created[i].path == p && created[i].id == id
  }

  // rollback_paths, newest first. It goes on after a failure, and keeps what is not the node
  // that was created. When the entries are those of the nodes from number n on and what comes
  // after is gone, then unless a call fails they are gone as well.
  method RollbackPaths(disk: Disk, created: seq<Created>, ghost initial: Tree, ghost made: seq<Made>,
                       ghost orphan: Option<Made>, ghost n: nat, ghost clean: bool)
    returns (success: bool)
    requires disk.Valid()
    modifies disk
    ensures disk.Valid() && disk.OnlyUndo(old(disk.faults))
    ensures RemovesCreated(old(disk.tree), disk.tree, created)
    ensures success ==> disk.faults == old(disk.faults)
    ensures Matches(created, made, n) && Undoing(initial, made, orphan, old(disk.tree), n + |created|, clean) ==>
              Undoing(initial, made, orphan, disk.tree, n, clean && disk.faults == old(disk.faults))
              && (clean && orphan.None? && disk.faults == old(disk.faults) ==> success)
  {
    hide Laid, Built, WellFormed, Identified, HasChild, RemovesCreated, Undoing;
    success := true;
    ghost var tracked := Matches(created, made, n) && Undoing(initial, made, orphan, disk.tree, n + |created|, clean);
    ghost var cleanNow := clean;
    RemovesNothing(disk.tree, created);
    var k: nat := |created|;
    while k > 0
      invariant k <= |created| && disk.Valid() && disk.OnlyUndo(old(disk.faults))
      invariant RemovesCreated(old(disk.tree), disk.tree, created)
      invariant success ==> disk.faults == old(disk.faults)
      invariant cleanNow <==> clean && disk.faults == old(disk.faults)
      invariant tracked ==> Undoing(initial, made, orphan, disk.tree, n + k, cleanNow)
      invariant tracked && cleanNow && orphan.None? ==> success
    {
      k := k - 1;
      ghost var before, was := disk.tree, cleanNow;
      if tracked { UndoNext(initial, made, orphan, before, n + k, was); }
      var undone := RemoveCreated(disk, created[k]);
      RemovesOneMore(old(disk.tree), before, disk.tree, created, k);
      cleanNow := clean && disk.faults == old(disk.faults);
      if tracked { UndoStep(initial, made, orphan, before, disk.tree, n + k, was, cleanNow); }
      if !undone { success := false; }
    }
  }

  // One turn of the loop of rollback_paths.
  method RemoveCreated(disk: Disk, c: Created) returns (undone: bool)
    requires disk.Valid()
    modifies disk
    ensures disk.Valid() && disk.OnlyUndo(old(disk.faults))
    ensures disk.tree == old(disk.tree)
            || (c.path in old(disk.tree) && old(disk.tree)[c.path].id == c.id && disk.tree == old(disk.tree) - {c.path})
    ensures undone ==> disk.faults == old(disk.faults)
    ensures c.path in old(disk.tree) && old(disk.tree)[c.path].id == c.id
            && (old(disk.tree)[c.path].content == Directory) == c.directory && disk.faults == old(disk.faults) ==>
              if HasChild(old(disk.tree), c.path) then disk.tree == old(disk.tree)
              else undone && disk.tree == old(disk.tree) - {c.path}
  {
    hide Identified, HasChild;
    var s := disk.Lstat(c.path, Undo);
    if s.Unreadable? { return false; }
    if s.Missing? { return true; }
    if s.node.id != c.id { return false; }
    if s.node.content != Directory { FileHasNoChild(disk.tree, c.path); }
    var e;
    if c.directory { e := disk.Rmdir(c.path); } else { e := disk.Unlink(c.path); }
    return e == Done || e == Absent;
  }

  lemma RemovesNothing(t: Tree, created: seq<Created>)
    ensures RemovesCreated(t, t, created)
  {
  }

  lemma RemovesOneMore(a: Tree, b: Tree, c: Tree, created: seq<Created>, k: nat)
    requires RemovesCreated(a, b, created) && k < |created|
    requires c == b || (created[k].path in b && b[created[k].path].id == created[k].id && c == b - {created[k].path})
    ensures RemovesCreated(a, c, created)
  {
  }

  // ---------------------------------------------------------------- the whole staging

  function DriveParts(): Path { ["proton", "compatdata", "pfx", "drive_c"] }
  function ClientParts(): Path { ["proton", "client"] }
  function Drive(prefix: Path): Path { prefix + ["drive_c"] }
  function Source(prefix: Path, relative: Path): Path { Drive(prefix) + relative }
  function TargetDrive(prefix: Path): Path { prefix + DriveParts() }

  lemma PartsFacts()
    ensures |DriveParts()| == 4 && |ClientParts()| == 2
    ensures DriveParts()[0] == ClientParts()[0] != "drive_c"
  {
  }

  // Only directories on the way to the Proton drive and client have been created.
  ghost predicate Infrastructure(made: seq<Made>, prefix: Path) {
    forall i :: 0 <= i < |made| ==>
      && made[i].node.content == Directory
      && (IsOnTheWay(made[i].path, prefix, DriveParts()) || IsOnTheWay(made[i].path, prefix, ClientParts()))
  }

  ghost predicate Preparable(t: Tree, prefix: Path) {
    WayOk(t, prefix, DriveParts(), true) && WayOk(t, prefix, ClientParts(), true)
  }

  // One directory of the list in prepare_directories.
  method PrepareDirectory(disk: Disk, prefix: Path, parts: Path, created: seq<Created>,
                          ghost initial: Tree, ghost made: seq<Made>, ghost whole: Path)
    returns (ok: bool, more: seq<Created>, ghost now: seq<Made>, ghost orphan: Option<Made>)
    requires disk.Valid() && Tracks(initial, made, created, disk.tree) && Infrastructure(made, prefix)
    requires parts <= whole && (whole == DriveParts() || whole == ClientParts())
    modifies disk
    ensures disk.Valid() && disk.NoUndo(old(disk.faults)) && disk.faults.fileProbe == old(disk.faults.fileProbe)
    ensures TracksUpTo(initial, now, more, orphan, disk.tree) && Infrastructure(now, prefix)
    ensures Keeps(old(disk.tree), disk.tree)
    ensures orphan.Some? <==> disk.faults.directoryProbe > old(disk.faults.directoryProbe)
    ensures ok ==> disk.faults == old(disk.faults) && AllDirectories(disk.tree, prefix, parts)
                   && (IsDirectory(initial, prefix) ==> WayOk(initial, prefix, parts, true))
                   && (made == [] ==> IsDirectory(initial, prefix))
    ensures ok && DirectoryProbe in disk.dead ==> now == made
    ensures disk.faults == old(disk.faults) && WayOk(initial, prefix, whole, true) ==> ok
  {
    hide Laid, Built, WellFormed, Identified, TracksUpTo, WayOk, AllDirectories, OnlyOnTheWay, DriveParts, ClientParts;
    hide Infrastructure, Keeps;
    ghost var before := disk.tree;
    WaysAgree(initial, before, made, created, prefix, parts, whole);
    ok, more, now, orphan := EnsureDirectoryPath(disk, prefix, parts, created, initial, made);
    MoreInfrastructure(made, now, prefix, parts, whole);
  }

  // With only directories added, the same ways are open before and after.
  lemma WaysAgree(initial: Tree, now: Tree, made: seq<Made>, created: seq<Created>, prefix: Path, parts: Path,
                  whole: Path)
    requires Tracks(initial, made, created, now) && Infrastructure(made, prefix) && parts <= whole
    ensures WayOk(initial, prefix, whole, true) ==> WayOk(now, prefix, parts, true)
    ensures WayOk(now, prefix, parts, true) && IsDirectory(initial, prefix) ==> WayOk(initial, prefix, parts, true)
    ensures WayOk(now, prefix, parts, true) && made == [] ==> IsDirectory(initial, prefix)
  {
    hide Laid, Built, WellFormed;
    TracksMeans(initial, made, created, now);
    assert made[..|made|] == made;
    BuiltOnlyAdds(initial, made, |made|);
    forall p | p in now && p !in initial ensures IsDirectory(now, p) {
      var i :| 0 <= i < |made| && made[i].path == p;
      BuiltHas(initial, made, i, |made|);
    }
    BuiltNothing(initial);
    forall n: nat | n <= |parts| ensures parts[..n] == whole[..n] { }
  }

  lemma MoreInfrastructure(made: seq<Made>, now: seq<Made>, prefix: Path, parts: Path, whole: Path)
    requires Infrastructure(made, prefix) && OnlyOnTheWay(made, now, prefix, parts)
    requires parts <= whole && (whole == DriveParts() || whole == ClientParts())
    ensures Infrastructure(now, prefix)
  {
    hide DriveParts, ClientParts;
    forall i | 0 <= i < |now|
      ensures now[i].node.content == Directory
      ensures IsOnTheWay(now[i].path, prefix, DriveParts()) || IsOnTheWay(now[i].path, prefix, ClientParts())
    {
      if i < |made| { assert now[i] == made[i]; }
      else {
        var n: nat :| 0 < n <= |parts| && now[i].path == prefix + parts[..n];
        assert parts[..n] == whole[..n];
      }
    }
  }

  // prepare_directories: the directories of the Proton prefix.
  method PrepareDirectories(disk: Disk, prefix: Path)
    returns (ok: bool, created: seq<Created>, ghost made: seq<Made>, ghost orphan: Option<Made>)
    requires disk.Valid()
    modifies disk
    ensures disk.Valid() && disk.NoUndo(old(disk.faults)) && disk.faults.fileProbe == old(disk.faults.fileProbe)
    ensures TracksUpTo(old(disk.tree), made, created, orphan, disk.tree) && Infrastructure(made, prefix)
    ensures orphan.Some? <==> disk.faults.directoryProbe > old(disk.faults.directoryProbe)
    ensures ok ==> disk.faults == old(disk.faults) && AllDirectories(disk.tree, prefix, DriveParts())
                   && AllDirectories(disk.tree, prefix, ClientParts()) && Preparable(old(disk.tree), prefix)
    ensures ok && DirectoryProbe in disk.dead ==> made == []
    ensures disk.faults == old(disk.faults) && Preparable(old(disk.tree), prefix) ==> ok
  {
    hide Laid, Built, WellFormed, Identified, TracksUpTo, WayOk, AllDirectories, DriveParts, ClientParts;
    ghost var initial := disk.tree;
    created, made, orphan := [], [], None;
    assert Tracks(initial, [], [], initial) by { TracksNothing(initial); }
    PartsFacts();
    for n := 1 to |DriveParts()| + 1
      invariant disk.Valid() && disk.faults == old(disk.faults) && orphan.None?
      invariant Tracks(initial, made, created, disk.tree) && Infrastructure(made, prefix)
      invariant if n == 1 then made == [] else IsDirectory(initial, prefix)
      invariant DirectoryProbe in disk.dead ==> made == []
      invariant n > 1 ==> AllDirectories(disk.tree, prefix, DriveParts()[..n - 1])
      invariant n > 1 ==> WayOk(initial, prefix, DriveParts()[..n - 1], true)
    {
      ok, created, made, orphan := PrepareDirectory(disk, prefix, DriveParts()[..n], created, initial, made,
                                                    DriveParts());
      if !ok { return; }
    }
    assert DriveParts()[..|DriveParts()|] == DriveParts();
    ghost var before := disk.tree;
    ok, created, made, orphan := PrepareDirectory(disk, prefix, ClientParts(), created, initial, made, ClientParts());
    if ok { DirectoriesStay(before, disk.tree, prefix, DriveParts()); }
  }

  lemma DirectoriesStay(before: Tree, after: Tree, root: Path, relative: Path)
    requires AllDirectories(before, root, relative) && Keeps(before, after)
    ensures AllDirectories(after, root, relative)
  {
  }

  // ---------------------------------------------------------------- what staging does

  ghost predicate WayFree(t: Tree, root: Path, relative: Path) {
    forall n: nat :: 0 < n <= |relative| && root + relative[..n] in t ==> IsDirectory(t, root + relative[..n])
  }

  // Where p, below the source, is staged.
  function StagedAt(prefix: Path, relative: Path, p: Path): Path {
    TargetDrive(prefix) + (relative + Relative(p, Source(prefix, relative)))
  }

  // The application can be staged: it consists of directories and files, nothing is in the
  // way, and whatever is at a target already is the same.
  ghost predicate Stageable(t: Tree, prefix: Path, relative: Path) {
    && WayOk(t, Drive(prefix), relative, true) && Preparable(t, prefix)
    && Copyable(t, Source(prefix, relative)) && WayFree(t, TargetDrive(prefix), relative)
    && NoConflict(t, t, prefix, relative)
  }

  ghost predicate NoConflict(t: Tree, now: Tree, prefix: Path, relative: Path) {
    forall p :: p in t && Below(p, Source(prefix, relative)) && StagedAt(prefix, relative, p) in now ==>
      now[StagedAt(prefix, relative, p)].content == t[p].content
  }

  // After staging: everything that was there is unchanged, every part of the application is
  // present with its contents, and nothing else is new but directories on the way.
  ghost predicate StagedFrom(before: Tree, after: Tree, prefix: Path, relative: Path) {
    && Keeps(before, after)
    && (forall p :: p in before && Below(p, Source(prefix, relative)) ==> StagedAt(prefix, relative, p) in after)
    && NoConflict(before, after, prefix, relative)
    && AllDirectories(after, prefix, DriveParts()) && AllDirectories(after, prefix, ClientParts())
    && AllDirectories(after, TargetDrive(prefix), relative)
    && forall p :: p in after && p !in before ==> Needed(before, prefix, relative, p)
  }

  ghost predicate Needed(t: Tree, prefix: Path, relative: Path, p: Path) {
    || IsOnTheWay(p, prefix, DriveParts()) || IsOnTheWay(p, prefix, ClientParts())
    || IsOnTheWay(p, TargetDrive(prefix), relative)
    || exists q :: q in t && Below(q, Source(prefix, relative)) && p == StagedAt(prefix, relative, q)
  }

  // Staging an unchanged application again creates nothing.
  lemma RestagingCreatesNothing(a: Tree, b: Tree, c: Tree, prefix: Path, relative: Path)
    requires StagedFrom(a, b, prefix, relative) && StagedFrom(b, c, prefix, relative)
    ensures c == b
  {
    hide NoConflict, DriveParts, ClientParts, StagedAt, AllDirectories, TargetDrive;
    forall p | p in c && p !in b ensures false {
      assert Needed(b, prefix, relative, p);
      if IsOnTheWay(p, prefix, DriveParts()) { OnTheWayIsThere(b, p, prefix, DriveParts()); }
      else if IsOnTheWay(p, prefix, ClientParts()) { OnTheWayIsThere(b, p, prefix, ClientParts()); }
      else if IsOnTheWay(p, TargetDrive(prefix), relative) { OnTheWayIsThere(b, p, TargetDrive(prefix), relative); }
      else {
        var q :| q in b && Below(q, Source(prefix, relative)) && p == StagedAt(prefix, relative, q);
        if q !in a { NewIsOutside(a, q, prefix, relative); }
      }
    }
  }

  // Where staging is possible, it still is after staging.
  lemma StageableAgain(a: Tree, b: Tree, prefix: Path, relative: Path)
    requires Stageable(a, prefix, relative) && StagedFrom(a, b, prefix, relative)
    ensures Stageable(b, prefix, relative)
  {
    hide DriveParts, ClientParts, StagedAt, TargetDrive, Drive, WayOk, AllDirectories, NoConflict, Copyable;
    forall p | p in b && Drive(prefix) <= p ensures p in a {
      if p !in a { NewIsOutside(a, p, prefix, relative); }
    }
    assert WayOk(b, Drive(prefix), relative, true) by { WayStays(a, b, Drive(prefix), relative); }
    WayIsOpen(b, prefix, DriveParts());
    WayIsOpen(b, prefix, ClientParts());
    WayIsOpen(b, TargetDrive(prefix), relative);
    CopyableStays(a, b, prefix, relative);
    ConflictFreeAgain(a, b, prefix, relative);
  }

  lemma WayStays(a: Tree, b: Tree, root: Path, relative: Path)
    requires WayOk(a, root, relative, true) && Keeps(a, b) && forall p :: p in b && root <= p ==> p in a
    ensures WayOk(b, root, relative, true)
  {
  }

  lemma WayIsOpen(t: Tree, root: Path, relative: Path)
    requires AllDirectories(t, root, relative)
    ensures WayOk(t, root, relative, true) && WayFree(t, root, relative)
  {
    assert root + relative[..0] == root;
    assert IsDirectory(t, root + relative[..0]);
  }

  lemma CopyableStays(a: Tree, b: Tree, prefix: Path, relative: Path)
    requires Copyable(a, Source(prefix, relative)) && Keeps(a, b) && forall p :: p in b && Drive(prefix) <= p ==> p in a
    ensures Copyable(b, Source(prefix, relative))
  {
    hide Drive;
    assert Drive(prefix) <= Source(prefix, relative);
  }

  lemma ConflictFreeAgain(a: Tree, b: Tree, prefix: Path, relative: Path)
    requires NoConflict(a, b, prefix, relative) && Keeps(a, b) && forall p :: p in b && Drive(prefix) <= p ==> p in a
    ensures NoConflict(b, b, prefix, relative)
  {
    hide Drive, StagedAt;
    assert Drive(prefix) <= Source(prefix, relative);
  }

  lemma OnTheWayIsThere(t: Tree, p: Path, root: Path, relative: Path)
    requires AllDirectories(t, root, relative) && IsOnTheWay(p, root, relative)
    ensures p in t
  {
    var n: nat :| 0 < n <= |relative| && p == root + relative[..n];
    assert IsDirectory(t, root + relative[..n]);
  }

  lemma NewIsOutside(t: Tree, p: Path, prefix: Path, relative: Path)
    requires Needed(t, prefix, relative, p)
    ensures !(Drive(prefix) <= p) && !Below(p, Source(prefix, relative))
  {
    PartsFacts();
    hide DriveParts, ClientParts;
    assert p[|prefix|] == DriveParts()[0];
    assert Drive(prefix)[|prefix|] == "drive_c";
    assert Drive(prefix) <= Source(prefix, relative);
  }

  // Preparing the Proton directories changes nothing the application or its targets see.
  ghost predicate PreparedSame(initial: Tree, prepared: Tree, prefix: Path) {
    && Keeps(initial, prepared)
    && forall p :: p in prepared && (Drive(prefix) <= p || TargetDrive(prefix) < p) ==> p in initial
  }

  lemma PreparingIsElsewhere(initial: Tree, prepared: Tree, made: seq<Made>, created: seq<Created>, prefix: Path)
    requires Tracks(initial, made, created, prepared) && Infrastructure(made, prefix)
    ensures PreparedSame(initial, prepared, prefix)
    ensures forall p :: p in prepared && p !in initial ==>
      IsOnTheWay(p, prefix, DriveParts()) || IsOnTheWay(p, prefix, ClientParts())
  {
    hide Laid, Built, DriveParts, ClientParts;
    TracksMeans(initial, made, created, prepared);
    assert made[..|made|] == made;
    BuiltOnlyAdds(initial, made, |made|);
    PartsFacts();
    forall p | p in prepared && p !in initial
      ensures IsOnTheWay(p, prefix, DriveParts()) || IsOnTheWay(p, prefix, ClientParts())
      ensures !(Drive(prefix) <= p) && !(TargetDrive(prefix) < p)
    {
      var i :| 0 <= i < |made| && made[i].path == p;
      if IsOnTheWay(p, prefix, DriveParts()) { OnTheWayIsShort(p, prefix, DriveParts()); }
      else { OnTheWayIsShort(p, prefix, ClientParts()); }
      assert p[|prefix|] == DriveParts()[0];
      assert Drive(prefix)[|prefix|] == "drive_c";
    }
  }

  lemma CopyableTransfers(initial: Tree, prepared: Tree, prefix: Path, relative: Path)
    requires PreparedSame(initial, prepared, prefix)
    ensures Copyable(prepared, Source(prefix, relative)) <==> Copyable(initial, Source(prefix, relative))
    ensures forall p :: Below(p, Source(prefix, relative)) ==> (p in prepared <==> p in initial)
  {
    assert Drive(prefix) <= Source(prefix, relative);
  }

  // What the plan for the prepared tree means for the initial one, and the other way round.
  lemma PlanMeansStageable(initial: Tree, prepared: Tree, prefix: Path, relative: Path, entries: seq<SourceEntry>)
    requires PreparedSame(initial, prepared, prefix) && Lists(prepared, Source(prefix, relative), entries)
    requires AllCompatible(prepared, Source(prefix, relative), TargetDrive(prefix), relative, entries)
    requires WayOk(prepared, TargetDrive(prefix), relative, true)
    ensures WayFree(initial, TargetDrive(prefix), relative) && NoConflict(initial, initial, prefix, relative)
  {
    hide Listed, EntryFor, TargetDrive, Drive, Source, DriveParts;
    forall p | p in initial && Below(p, Source(prefix, relative)) && StagedAt(prefix, relative, p) in initial
      ensures initial[StagedAt(prefix, relative, p)].content == initial[p].content
    {
      var i := IndexOf(entries, Relative(p, Source(prefix, relative)));
      assert Source(prefix, relative) + entries[i].relative == p;
      assert Compatible(prepared, Source(prefix, relative), TargetDrive(prefix), relative, entries[i]);
    }
  }

  lemma StageableMeansPlan(initial: Tree, prepared: Tree, prefix: Path, relative: Path, entries: seq<SourceEntry>)
    requires PreparedSame(initial, prepared, prefix) && Lists(prepared, Source(prefix, relative), entries)
    requires Stageable(initial, prefix, relative) && WellFormed(prepared) && ParentsComeFirst(entries)
    requires IsDirectory(prepared, TargetDrive(prefix))
    ensures WayOk(prepared, TargetDrive(prefix), relative, true)
    ensures AllCompatible(prepared, Source(prefix, relative), TargetDrive(prefix), relative, entries)
  {
    hide Listed, EntryFor, ParentsComeFirst, WellFormed, Copyable, DriveParts, Preparable;
    forall i | 0 <= i < |entries|
      ensures Compatible(prepared, Source(prefix, relative), TargetDrive(prefix), relative, entries[i])
    {
      EntryCompatible(initial, prepared, prefix, relative, entries, i);
    }
  }

  lemma EntryCompatible(initial: Tree, prepared: Tree, prefix: Path, relative: Path, entries: seq<SourceEntry>, i: nat)
    requires PreparedSame(initial, prepared, prefix) && Lists(prepared, Source(prefix, relative), entries)
    requires WellFormed(prepared) && ParentsComeFirst(entries) && IsDirectory(prepared, TargetDrive(prefix))
    requires WayFree(initial, TargetDrive(prefix), relative) && NoConflict(initial, initial, prefix, relative)
    requires i < |entries|
    ensures Compatible(prepared, Source(prefix, relative), TargetDrive(prefix), relative, entries[i])
  {
    hide Lists, ParentsComeFirst, WellFormed, DriveParts, NoConflict;
    var source, e := Source(prefix, relative), entries[i];
    var full := relative + e.relative;
    EntryOf(prepared, source, entries, i);
    TargetSame(initial, prepared, prefix, relative, e.relative);
    assert full[..|full|] == full;
    forall n: nat | 0 < n <= |full| && TargetDrive(prefix) + full[..n] in prepared
      ensures StepOk(prepared, TargetDrive(prefix), full, n, e.directory)
    {
      if n <= |relative| { assert full[..n] == relative[..n]; }
      else {
        var m: nat := n - |relative|;
        assert full[..n] == relative + e.relative[..m];
        if m < |e.relative| {
          var j := AncestorListed(prepared, source, entries, i, m);
          EntryOf(prepared, source, entries, j);
          TargetSame(initial, prepared, prefix, relative, e.relative[..m]);
        } else { assert e.relative[..m] == e.relative; }
      }
    }
  }

  lemma EntryOf(t: Tree, source: Path, entries: seq<SourceEntry>, i: nat)
    requires Lists(t, source, entries) && i < |entries|
    ensures EntryFor(t, source, entries[i])
  {
  }

  // At the target of a part of the application there is nothing, or the same content.
  lemma TargetSame(initial: Tree, prepared: Tree, prefix: Path, relative: Path, part: Path)
    requires PreparedSame(initial, prepared, prefix) && NoConflict(initial, initial, prefix, relative)
    requires part != [] && Source(prefix, relative) + part in prepared
    ensures var p := TargetDrive(prefix) + (relative + part);
      p in prepared ==> prepared[p].content == prepared[Source(prefix, relative) + part].content
  {
    hide DriveParts;
    var q := Source(prefix, relative) + part;
    assert Below(q, Source(prefix, relative)) && Relative(q, Source(prefix, relative)) == part;
    assert Drive(prefix) <= q;
  }

  // All entries copied: the staging is complete.
  lemma StagedCompletely(initial: Tree, prepared: Tree, now: Tree, made: seq<Made>, created: seq<Created>, prefix: Path,
                         relative: Path, entries: seq<SourceEntry>)
    requires PreparedSame(initial, prepared, prefix) && Lists(prepared, Source(prefix, relative), entries)
    requires forall p :: p in prepared && p !in initial ==>
      IsOnTheWay(p, prefix, DriveParts()) || IsOnTheWay(p, prefix, ClientParts())
    requires AllDirectories(prepared, prefix, DriveParts()) && AllDirectories(prepared, prefix, ClientParts())
    requires Progress(prepared, now, made, created, Source(prefix, relative), TargetDrive(prefix), relative, entries,
                      |entries|)
    ensures StagedFrom(initial, now, prefix, relative)
  {
    hide Lists, DriveParts, ClientParts, Tracks, NewTargets, FirstStaged, IsOnTheWay;
    TracksMeans(prepared, made, created, now);
    DirectoriesStay(prepared, now, prefix, DriveParts());
    DirectoriesStay(prepared, now, prefix, ClientParts());
    forall p | p in initial && Below(p, Source(prefix, relative))
      ensures StagedAt(prefix, relative, p) in now && now[StagedAt(prefix, relative, p)].content == initial[p].content
    {
      PartStaged(initial, prepared, now, prefix, relative, entries, p);
    }
    forall p | p in now && p !in initial ensures Needed(initial, prefix, relative, p) {
      if p !in prepared { NewIsNeeded(initial, prepared, now, made, created, prefix, relative, entries, p); }
    }
  }

  lemma PartStaged(initial: Tree, prepared: Tree, now: Tree, prefix: Path, relative: Path, entries: seq<SourceEntry>,
                   p: Path)
    requires Keeps(initial, prepared) && Lists(prepared, Source(prefix, relative), entries)
    requires FirstStaged(prepared, now, Source(prefix, relative), TargetDrive(prefix) + relative, entries, |entries|)
    requires p in initial && Below(p, Source(prefix, relative))
    ensures StagedAt(prefix, relative, p) in now && now[StagedAt(prefix, relative, p)].content == initial[p].content
  {
    hide Listed, EntryFor, DriveParts, Source, TargetDrive;
    var part := Relative(p, Source(prefix, relative));
    var i := IndexOf(entries, part);
    assert Source(prefix, relative) + part == p;
    assert EntryStaged(prepared, now, Source(prefix, relative), TargetDrive(prefix) + relative, entries[i]);
    assert TargetDrive(prefix) + relative + part == TargetDrive(prefix) + (relative + part);
  }

  lemma NewIsNeeded(initial: Tree, prepared: Tree, now: Tree, made: seq<Made>, created: seq<Created>, prefix: Path,
                    relative: Path, entries: seq<SourceEntry>, p: Path)
    requires PreparedSame(initial, prepared, prefix) && Lists(prepared, Source(prefix, relative), entries)
    requires Tracks(prepared, made, created, now)
    requires NewTargets(made, TargetDrive(prefix), relative, entries, |entries|)
    requires p in now && p !in prepared
    ensures Needed(initial, prefix, relative, p)
  {
    hide Laid, Built, DriveParts, ClientParts, TargetDrive, IsOnTheWay, Lists, PreparedSame, Needed;
    assert made[..|made|] == made;
    BuiltOnlyAdds(prepared, made, |made|);
    var i :| 0 <= i < |made| && made[i].path == p;
    if !IsOnTheWay(p, TargetDrive(prefix), relative) {
      var j :| 0 <= j < |entries| && p == TargetDrive(prefix) + relative + entries[j].relative;
      EntryOf(prepared, Source(prefix, relative), entries, j);
      TargetIsNeeded(initial, prepared, prefix, relative, entries[j], p);
    } else {
      OnTheWayIsNeeded(initial, prefix, relative, p);
    }
  }

  lemma OnTheWayIsNeeded(t: Tree, prefix: Path, relative: Path, p: Path)
    requires IsOnTheWay(p, TargetDrive(prefix), relative)
    ensures Needed(t, prefix, relative, p)
  {
  }

  lemma TargetIsNeeded(initial: Tree, prepared: Tree, prefix: Path, relative: Path, e: SourceEntry, p: Path)
    requires PreparedSame(initial, prepared, prefix) && EntryFor(prepared, Source(prefix, relative), e)
    requires p == TargetDrive(prefix) + relative + e.relative
    ensures Needed(initial, prefix, relative, p)
  {
    hide DriveParts, ClientParts, TargetDrive, IsOnTheWay;
    var q := Source(prefix, relative) + e.relative;
    assert Drive(prefix) <= q && Below(q, Source(prefix, relative));
    assert Relative(q, Source(prefix, relative)) == e.relative;
    assert p == TargetDrive(prefix) + (relative + e.relative);
    assert q in initial && p == StagedAt(prefix, relative, q);
  }

  // The staging part of run_proton_application. What was there is kept in any case. A failure
  // undoes what was copied, then the Proton directories, and so leaves the tree as it was,
  // whatever call of the work failed: unless undoing fails as well, the one exception is a
  // created directory whose status cannot be queried. What is left over then is that
  // directory and those it lies in.
  method Stage(disk: Disk, prefix: Path, relative: Path)
    returns (ok: bool, ghost created: seq<Created>, ghost orphan: Option<Made>)
    requires disk.Valid()
    modifies disk
    ensures disk.Valid() && disk.Since(old(disk.faults)) && Keeps(old(disk.tree), disk.tree)
    ensures ok ==>
              Stageable(old(disk.tree), prefix, relative) && StagedFrom(old(disk.tree), disk.tree, prefix, relative)
    ensures !ok && disk.faults.undo == old(disk.faults.undo) ==>
              (disk.tree == old(disk.tree) <==> disk.faults.directoryProbe == old(disk.faults.directoryProbe))
    ensures !ok ==> forall p :: p in disk.tree && p !in old(disk.tree) ==>
              LeadsTo(p, orphan)
              || (disk.faults.undo > old(disk.faults.undo) && WasCreated(created, p, disk.tree[p].id))
    ensures orphan.Some? ==>
              !ok && orphan.value.path !in old(disk.tree) && orphan.value.path in disk.tree
              && ProbeFailed(old(disk.faults), disk.faults)
    ensures disk.faults == old(disk.faults) ==> (ok <==> Stageable(old(disk.tree), prefix, relative))
    ensures ok && DirectoryProbe in disk.dead ==> IsDirectory(old(disk.tree), TargetDrive(prefix))
  {
    hide Laid, Built, WellFormed, Identified, TracksUpTo, WayOk, AllDirectories, DriveParts, ClientParts, Progress;
    hide Infrastructure, PreparedSame, AllCompatible, Copyable, WayFree, NoConflict, StagedFrom, ParentsComeFirst;
    hide Lists, RemovesCreated, Undoing, Matches, Keeps, WasCreated, LeadsTo;
    ghost var initial := disk.tree;
    created, orphan := [], None;
    assert Keeps(initial, initial) by { KeepsItself(initial); }
    var verdict := ValidatePath(disk, Drive(prefix), relative, true);
    if !verdict.Fine? { return false, created, orphan; }
    ghost var infraMade, stagedMade;
    var infra, staged := [], [];
    ok, infra, infraMade, orphan := PrepareDirectories(disk, prefix);
    if !ok {
      created := infra;
      RollbackStart(initial, infraMade, infra, orphan, disk.tree);
      var undone := RollbackPaths(disk, infra, initial, infraMade, orphan, 0, true);
      assert infra + [] == infra;
      RollbackEnd(initial, infraMade, infra, [], orphan, disk.tree, disk.faults.undo == old(disk.faults.undo));
      return false, created, orphan;
    }
    ghost var prepared := disk.tree;
    PreparingIsElsewhere(initial, prepared, infraMade, infra, prefix);
    CopyableTransfers(initial, prepared, prefix, relative);
    assert IsDirectory(prepared, TargetDrive(prefix)) by { WholeWay(prepared, prefix, DriveParts()); }
    if infraMade == [] { TracksNothingMeans(initial, infra, prepared); }
    var source, drive := Source(prefix, relative), TargetDrive(prefix);
    assert Tracks(prepared, [], [], prepared) by { TracksNothing(prepared); }
    stagedMade := [];
    var entries;
    ok, entries := CollectSourceEntries(disk, source);
    if ok {
      if Stageable(initial, prefix, relative) { StageableMeansPlan(initial, prepared, prefix, relative, entries); }
      EntriesOf(prepared, source, entries);
      ok := Preflight(disk, source, drive, relative, entries);
    }
    if ok {
      ok, staged, stagedMade, orphan := CopyEntries(disk, source, drive, relative, entries);
      if ok {
        PlanMeansStageable(initial, prepared, prefix, relative, entries);
        StagedCompletely(initial, prepared, disk.tree, stagedMade, staged, prefix, relative, entries);
        StagedKeeps(initial, disk.tree, prefix, relative);
        return true, created, orphan;
      }
    }
    created := infra + staged;
    ghost var made := infraMade + stagedMade;
    RollbackBoth(initial, infraMade, infra, prepared, stagedMade, staged, orphan, disk.tree);
    ghost var before := disk.faults;
    var first := RollbackPaths(disk, staged, initial, made, orphan, |infra|, true);
    var second := RollbackPaths(disk, infra, initial, made, orphan, 0, disk.faults == before);
    RollbackEnd(initial, made, infra, staged, orphan, disk.tree, disk.faults == before);
    ok := false;
  }

  lemma TracksNothingMeans(initial: Tree, created: seq<Created>, now: Tree)
    requires Tracks(initial, [], created, now)
    ensures now == initial
  {
  }

  lemma KeepsItself(t: Tree)
    ensures Keeps(t, t)
  {
  }

  lemma StagedKeeps(before: Tree, after: Tree, prefix: Path, relative: Path)
    requires StagedFrom(before, after, prefix, relative)
    ensures Keeps(before, after)
  {
  }

  // Where undoing starts.
  lemma RollbackStart(initial: Tree, made: seq<Made>, created: seq<Created>, orphan: Option<Made>, tree: Tree)
    requires TracksUpTo(initial, made, created, orphan, tree)
    ensures Matches(created, made, 0) && |made| == |created|
    ensures Undoing(initial, made, orphan, tree, |created|, true)
  {
    hide Laid, Built;
    CleanupStart(initial, made, orphan);
  }

  lemma RollbackBoth(initial: Tree, infraMade: seq<Made>, infra: seq<Created>, prepared: Tree, stagedMade: seq<Made>,
                     staged: seq<Created>, orphan: Option<Made>, tree: Tree)
    requires Tracks(initial, infraMade, infra, prepared)
    requires TracksUpTo(prepared, stagedMade, staged, orphan, tree)
    ensures var made := infraMade + stagedMade;
      && |made| == |infra| + |staged| && Matches(infra, made, 0) && Matches(staged, made, |infra|)
      && Undoing(initial, made, orphan, tree, |infra| + |staged|, true)
  {
    hide Laid, Built, Undoing;
    var made := infraMade + stagedMade;
    LaidJoin(initial, infraMade, Everything(stagedMade, orphan));
    assert infraMade + Everything(stagedMade, orphan) == Everything(made, orphan);
    CleanupStart(initial, made, orphan);
  }

  // What is left when undoing has ended.
  lemma RollbackEnd(initial: Tree, made: seq<Made>, infra: seq<Created>, staged: seq<Created>, orphan: Option<Made>,
                    tree: Tree, clean: bool)
    requires Undoing(initial, made, orphan, tree, 0, clean)
    requires |made| == |infra| + |staged| && Matches(infra, made, 0) && (staged == [] || Matches(staged, made, |infra|))
    ensures Keeps(initial, tree) && (orphan.Some? ==> orphan.value.path !in initial && orphan.value.path in tree)
    ensures clean ==> forall p :: p in tree && p !in initial ==> LeadsTo(p, orphan)
    ensures clean && orphan.None? ==> tree == initial
    ensures forall p :: p in tree && p !in initial ==> LeadsTo(p, orphan) || WasCreated(infra + staged, p, tree[p].id)
  {
    hide Laid, Built, LeadsTo, WasCreated;
    if clean { NothingElseLeft(initial, made, orphan, tree); }
    if orphan.Some? { OrphanIsNew(initial, made, orphan); }
    forall p | p in tree && p !in initial ensures LeadsTo(p, orphan) || WasCreated(infra + staged, p, tree[p].id) {
      NewIsMade(initial, made, orphan, tree, p);
      if !LeadsTo(p, orphan) {
        var i :| 0 <= i < |made| && made[i].path == p && made[i].node == tree[p];
        MadeWasCreated(made, infra, staged, i);
      }
    }
  }

  lemma MadeWasCreated(made: seq<Made>, infra: seq<Created>, staged: seq<Created>, i: nat)
    requires |made| == |infra| + |staged| && Matches(infra, made, 0) && (staged == [] || Matches(staged, made, |infra|))
    requires i < |made|
    ensures WasCreated(infra + staged, made[i].path, made[i].node.id)
  {
    assert CreatedAt((infra + staged)[i], made[i]) by {
      if i < |infra| { assert CreatedAt(infra[i], made[0 + i]); }
      else { assert CreatedAt(staged[i - |infra|], made[|infra| + (i - |infra|)]); }
    }
  }

  lemma WholeWay(t: Tree, root: Path, relative: Path)
    requires AllDirectories(t, root, relative)
    ensures IsDirectory(t, root + relative)
  {
    assert relative[..|relative|] == relative;
    assert IsDirectory(t, root + relative[..|relative|]);
  }

  lemma EntriesOf(t: Tree, source: Path, entries: seq<SourceEntry>)
    requires Lists(t, source, entries)
    ensures forall i :: 0 <= i < |entries| ==> EntryFor(t, source, entries[i])
  {
  }

  // ---------------------------------------------------------------- a staging that leaves a directory

  // An application with one file, below a prefix without Proton directories.
  function SampleTree(): Tree {
    map[[] := Node(0, Directory), ["p"] := Node(1, Directory), ["p", "drive_c"] := Node(2, Directory),
        ["p", "drive_c", "a"] := Node(3, Directory), ["p", "drive_c", "a", "f"] := Node(4, File([]))]
  }

  lemma SamplePaths(p: Path)
    requires p in SampleTree()
    ensures p == [] || p == ["p"] || p == ["p", "drive_c"] || p == ["p", "drive_c", "a"]
            || p == ["p", "drive_c", "a", "f"]
  {
  }

  lemma SampleTreeIsFine()
    ensures WellFormed(SampleTree()) && Identified(SampleTree(), 5)
  {
    var t := SampleTree();
    forall p | p in t && p != [] ensures IsDirectory(t, Parent(p)) {
      SamplePaths(p);
      assert Parent(["p"]) == [] && Parent(["p", "drive_c"]) == ["p"];
      assert Parent(["p", "drive_c", "a"]) == ["p", "drive_c"];
      assert Parent(["p", "drive_c", "a", "f"]) == ["p", "drive_c", "a"];
    }
  }

  lemma NoProtonYet(parts: Path, n: nat)
    requires 0 < n <= |parts| && parts[0] == "proton"
    ensures ["p"] + parts[..n] !in SampleTree()
  {
    var p := ["p"] + parts[..n];
    assert |p| > 1 && p[1] == "proton";
    if p in SampleTree() { SamplePaths(p); }
  }

  lemma SampleIsStageable()
    ensures Stageable(SampleTree(), ["p"], ["a"]) && TargetDrive(["p"]) !in SampleTree()
  {
    var t, drive := SampleTree(), ["p", "drive_c"];
    assert Drive(["p"]) == drive && Source(["p"], ["a"]) == ["p", "drive_c", "a"];
    assert ["a"][..1] == ["a"] && drive + ["a"] == ["p", "drive_c", "a"];
    assert WayOk(t, drive, ["a"], true);
    PartsFacts();
    forall n: nat | 0 < n <= 4 ensures ["p"] + DriveParts()[..n] !in t { NoProtonYet(DriveParts(), n); }
    forall n: nat | 0 < n <= 2 ensures ["p"] + ClientParts()[..n] !in t { NoProtonYet(ClientParts(), n); }
    assert DriveParts()[..4] == DriveParts();
    forall p | p in t && Below(p, ["p", "drive_c", "a"]) ensures t[p].content.File? { SamplePaths(p); }
    forall part: Path ensures TargetDrive(["p"]) + part !in t {
      var whole := DriveParts() + part;
      NoProtonYet(whole, |whole|);
      assert whole[..|whole|] == whole && ["p"] + whole == TargetDrive(["p"]) + part;
    }
    assert ["a"][..1] == ["a"];
  }

  // On a disk where nothing fails but asking for the status of a new directory, an application
  // that could be staged is not, and a directory is left behind.
  method StagingLeavesDirectory() returns (before: Tree, after: Tree, ok: bool)
    ensures Stageable(before, ["p"], ["a"]) && !ok && after != before && Keeps(before, after)
  {
    hide Stageable, StagedFrom, WellFormed, Identified, SampleTree, Keeps, TargetDrive;
    SampleTreeIsFine();
    SampleIsStageable();
    before := SampleTree();
    var disk := new Disk(before, 5, {Work, FileProbe, Undo}, {DirectoryProbe});
    ghost var created, orphan;
    ok, created, orphan := Stage(disk, ["p"], ["a"]);
    after := disk.tree;
  }
}
