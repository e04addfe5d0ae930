// A directory tree and the calls by which src/compat/materializer.cpp and
// src/backend/proton_runtime.cpp look at it and change it. Any call may fail.
module FileSystem {
  import opened LittleEndian

  // Canonical paths, component by component.
  type Path = seq<string>

  datatype Content = Directory | File(data: seq<byte>) | Link | Special

  // A node and its identity (device and inode).
  datatype Node = Node(id: nat, content: Content)

  type Tree = map<Path, Node>

  datatype Status = Found(node: Node) | Missing | Unreadable

  datatype Errno = Done | Exists | Absent | NotEmpty | Failed

  datatype Option<+T> = None | Some(value: T)

  // What a call is made for: the work itself, asking for the status of a directory or a file
  // just created, or taking something back.
  datatype Role = Work | DirectoryProbe | FileProbe | Undo

  // How many calls have failed for reasons of their own, by role.
  datatype Faults = Faults(work: nat, directoryProbe: nat, fileProbe: nat, undo: nat)
  {
    function Plus(r: Role): Faults {
      match r
      case Work => this.(work := work + 1)
      case DirectoryProbe => this.(directoryProbe := directoryProbe + 1)
      case FileProbe => this.(fileProbe := fileProbe + 1)
      case Undo => this.(undo := undo + 1)
    }
  }

  function Parent(p: Path): Path
    requires p != []
  {
    p[..|p| - 1]
  }

  ghost predicate IsDirectory(t: Tree, p: Path) { p in t && t[p].content == Directory }

  // Every node but the root lies in a directory.
  ghost predicate WellFormed(t: Tree) { forall p :: p in t && p != [] ==> IsDirectory(t, Parent(p)) }

  ghost predicate HasChild(t: Tree, p: Path) { exists q :: q in t && q != [] && Parent(q) == p }

  ghost predicate Identified(t: Tree, nextId: nat) { forall p :: p in t ==> t[p].id < nextId }

  // ---------------------------------------------------------------- building up

  datatype Made = Made(path: Path, node: Node)

  // A tree with nodes added one after another.
  function Built(t: Tree, made: seq<Made>): Tree {
    if made == [] then t else Built(t, made[..|made| - 1])[made[|made| - 1].path := made[|made| - 1].node]
  }

  lemma BuiltNothing(t: Tree)
    ensures Built(t, []) == t
  {
  }

  // Each node is new where it is added, and lies in a directory that is already there.
  ghost predicate Laid(t: Tree, made: seq<Made>) {
    WellFormed(t) && forall i :: 0 <= i < |made| ==> AddsAt(t, made, i)
  }

  ghost predicate AddsAt(t: Tree, made: seq<Made>, i: int) {
    && 0 <= i < |made| && made[i].path != [] && made[i].path !in Built(t, made[..i])
    && IsDirectory(Built(t, made[..i]), Parent(made[i].path))
  }

  lemma LaidMore(t: Tree, made: seq<Made>, m: Made)
    requires Laid(t, made) && m.path != [] && m.path !in Built(t, made) && IsDirectory(Built(t, made), Parent(m.path))
    ensures Laid(t, made + [m]) && Built(t, made + [m]) == Built(t, made)[m.path := m.node]
  {
    var all := made + [m];
    assert all[..|made|] == made;
    forall i | 0 <= i < |all| ensures AddsAt(t, all, i) {
      if i < |made| {
        assert all[..i] == made[..i] && all[i] == made[i];
        assert AddsAt(t, made, i);
      }
    }
  }

  // What was there stays as it was.
  lemma {:induction false} BuiltKeeps(t: Tree, made: seq<Made>, n: nat)
    requires Laid(t, made) && n <= |made|
    ensures forall p :: p in t ==> p in Built(t, made[..n]) && Built(t, made[..n])[p] == t[p]
  {
    if n > 0 {
      BuiltKeeps(t, made, n - 1);
      assert made[..n][..n - 1] == made[..n - 1];
      assert AddsAt(t, made, n - 1);
    } else { assert made[..n] == []; }
  }

  lemma {:induction false} BuiltHas(t: Tree, made: seq<Made>, i: nat, n: nat)
    requires Laid(t, made) && i < n <= |made|
    ensures made[i].path in Built(t, made[..n]) && Built(t, made[..n])[made[i].path] == made[i].node
  {
    assert made[..n][..n - 1] == made[..n - 1];
    if i < n - 1 {
      BuiltHas(t, made, i, n - 1);
      assert AddsAt(t, made, n - 1);
    }
  }

  lemma {:induction false} BuiltOnlyAdds(t: Tree, made: seq<Made>, n: nat)
    requires n <= |made|
    ensures forall p :: p in Built(t, made[..n]) ==> p in t || exists i :: 0 <= i < n && made[i].path == p
  {
    if n > 0 {
      BuiltOnlyAdds(t, made, n - 1);
      assert made[..n][..n - 1] == made[..n - 1];
    } else { assert made[..n] == []; }
  }

  lemma FileHasNoChild(t: Tree, p: Path)
    requires WellFormed(t) && p in t && t[p].content != Directory
    ensures !HasChild(t, p)
  {
    forall q | q in t && q != [] ensures Parent(q) != p { assert IsDirectory(t, Parent(q)); }
  }

  lemma LeafRemoved(t: Tree, p: Path, nextId: nat)
    requires WellFormed(t) && Identified(t, nextId) && !HasChild(t, p)
    ensures WellFormed(t - {p}) && Identified(t - {p}, nextId)
  {
    forall q | q in t - {p} && q != [] ensures IsDirectory(t - {p}, Parent(q)) { assert IsDirectory(t, Parent(q)); }
  }

  // What a longer list adds.
  lemma {:induction false} GrowsOnly(initial: Tree, first: seq<Made>, made: seq<Made>, n: nat)
    requires Laid(initial, made) && |first| <= n <= |made| && made[..|first|] == first
    ensures forall p :: p in Built(initial, first) ==>
      p in Built(initial, made[..n]) && Built(initial, made[..n])[p] == Built(initial, first)[p]
    ensures forall p :: p in Built(initial, made[..n]) ==>
      p in Built(initial, first) || exists j :: |first| <= j < n && made[j].path == p
    decreases n
  {
    if n > |first| {
      GrowsOnly(initial, first, made, n - 1);
      assert made[..n][..n - 1] == made[..n - 1];
      assert AddsAt(initial, made, n - 1);
    }
  }

  // A node that was just added gets another content.
  lemma RewriteLast(t: Tree, made: seq<Made>, m: Made, node: Node)
    requires Laid(t, made + [m])
    ensures Laid(t, made + [Made(m.path, node)])
    ensures Built(t, made + [m])[m.path := node] == Built(t, made + [Made(m.path, node)])
  {
    var a, b := made + [m], made + [Made(m.path, node)];
    assert a[..|made|] == made && b[..|made|] == made;
    forall i | 0 <= i < |b| ensures AddsAt(t, b, i) {
      assert a[..i] == b[..i] && AddsAt(t, a, i);
    }
  }

  ghost predicate IsRegular(t: Tree, p: Path) { p in t && t[p].content.File? }

  ghost function Appended(t: Tree, p: Path, bytes: seq<byte>): (r: Tree)
    requires IsRegular(t, p)
    ensures IsRegular(r, p)
  {
    t[p := t[p].(content := File(t[p].content.data + bytes))]
  }

  lemma AppendedNothing(t: Tree, p: Path)
    requires IsRegular(t, p)
    ensures Appended(t, p, []) == t
  {
    assert t[p].content.data + [] == t[p].content.data;
  }

  lemma AppendedMore(t: Tree, p: Path, a: seq<byte>, b: seq<byte>)
    requires IsRegular(t, p)
    ensures Appended(Appended(t, p, a), p, b) == Appended(t, p, a + b)
  {
    assert t[p].content.data + a + b == t[p].content.data + (a + b);
  }

  // ---------------------------------------------------------------- taking back

  ghost predicate Keeps(before: Tree, after: Tree) { forall p :: p in before ==> p in after && after[p] == before[p] }

  // What was created, the node that could not be recorded included.
  function Everything(made: seq<Made>, orphan: Option<Made>): seq<Made> {
    if orphan.Some? then made + [orphan.value] else made
  }

  predicate LeadsTo(p: Path, orphan: Option<Made>) { orphan.Some? && p <= orphan.value.path }

  // The nodes from number n on are gone again, but for directories the orphan lies in.
  ghost predicate GoneFrom(made: seq<Made>, orphan: Option<Made>, tree: Tree, n: nat) {
    forall j :: n <= j < |made| ==> made[j].path !in tree || LeadsTo(made[j].path, orphan)
  }

  // A tree between the initial one and the one with everything created, the orphan in it.
  ghost predicate Between(initial: Tree, made: seq<Made>, orphan: Option<Made>, tree: Tree) {
    && Laid(initial, Everything(made, orphan)) && Keeps(initial, tree)
    && Keeps(tree, Built(initial, Everything(made, orphan)))
    && (orphan.Some? ==> orphan.value.path in tree)
  }

  lemma EverythingIsBetween(initial: Tree, made: seq<Made>, orphan: Option<Made>)
    requires Laid(initial, Everything(made, orphan))
    ensures Between(initial, made, orphan, Built(initial, Everything(made, orphan)))
  {
    var all := Everything(made, orphan);
    assert all[..|all|] == all;
    BuiltKeeps(initial, all, |all|);
    if orphan.Some? { OrphanIsNew(initial, made, orphan); }
  }

  // A directory that cannot be removed, everything after it being gone, holds the orphan.
  lemma HoldsOrphan(initial: Tree, made: seq<Made>, orphan: Option<Made>, tree: Tree, n: nat)
    requires Between(initial, made, orphan, tree) && n < |made| && GoneFrom(made, orphan, tree, n + 1)
    requires HasChild(tree, made[n].path)
    ensures LeadsTo(made[n].path, orphan)
  {
    hide Built;
    var all := Everything(made, orphan);
    var q :| q in tree && q != [] && Parent(q) == made[n].path;
    assert all[..|all|] == all;
    BuiltOnlyAdds(initial, all, |all|);
    assert AddsAt(initial, all, n);
    BuiltKeeps(initial, all, n);
    assert q !in initial;
    var l :| 0 <= l < |all| && all[l].path == q;
    assert AddsAt(initial, all, l);
    if l <= n { EarlierHasLess(initial, all, l, n, made[n].path); }
    else if l < |made| { assert made[l].path in tree; }
  }

  lemma EarlierHasLess(t: Tree, made: seq<Made>, l: nat, n: nat, p: Path)
    requires Laid(t, made) && l <= n <= |made| && p !in Built(t, made[..n])
    ensures p !in Built(t, made[..l])
  {
    var part := made[..n];
    assert part[..l] == made[..l] && part[..n] == part;
    forall i | 0 <= i < |part| ensures AddsAt(t, part, i) {
      assert part[..i] == made[..i] && AddsAt(t, made, i);
    }
    GrowsOnly(t, part[..l], part, n);
  }

  // When everything is gone again only the orphan and the directories it lies in are left.
  lemma NothingElseLeft(initial: Tree, made: seq<Made>, orphan: Option<Made>, tree: Tree)
    requires Between(initial, made, orphan, tree) && GoneFrom(made, orphan, tree, 0)
    ensures forall p :: p in tree && p !in initial ==> LeadsTo(p, orphan)
    ensures orphan.None? ==> tree == initial
  {
    hide Built, Laid;
    var all := Everything(made, orphan);
    assert all[..|all|] == all;
    BuiltOnlyAdds(initial, all, |all|);
    forall p | p in tree && p !in initial ensures LeadsTo(p, orphan) {
      var i :| 0 <= i < |all| && all[i].path == p;
      if i < |made| { assert made[i].path !in tree || LeadsTo(made[i].path, orphan); }
    }
  }

  // Taking away a node that was created keeps the tree in between.
  lemma StaysBetween(initial: Tree, made: seq<Made>, orphan: Option<Made>, tree: Tree, n: nat)
    requires Between(initial, made, orphan, tree) && n < |made|
    ensures Between(initial, made, orphan, tree - {made[n].path})
    ensures made[n].path !in initial
    ensures made[n].path in tree ==> tree[made[n].path] == made[n].node
  {
    hide Built, WellFormed;
    var all := Everything(made, orphan);
    assert all[..|all|] == all;
    assert AddsAt(initial, all, n);
    BuiltKeeps(initial, all, n);
    BuiltHas(initial, all, n, |all|);
    if orphan.Some? { OrphanIsNew(initial, made, orphan); }
  }

  // What is new is the orphan or was recorded.
  lemma NewIsMade(initial: Tree, made: seq<Made>, orphan: Option<Made>, tree: Tree, p: Path)
    requires Between(initial, made, orphan, tree) && p in tree && p !in initial
    ensures LeadsTo(p, orphan) || exists i :: 0 <= i < |made| && made[i].path == p && made[i].node == tree[p]
  {
    hide Built, WellFormed;
    var all := Everything(made, orphan);
    assert all[..|all|] == all;
    BuiltOnlyAdds(initial, all, |all|);
    var i :| 0 <= i < |all| && all[i].path == p;
    BuiltHas(initial, all, i, |all|);
  }

  // The orphan is new, and none of the recorded nodes.
  lemma OrphanIsNew(initial: Tree, made: seq<Made>, orphan: Option<Made>)
    requires Laid(initial, Everything(made, orphan)) && orphan.Some?
    ensures orphan.value.path !in initial && orphan.value.path in Built(initial, Everything(made, orphan))
    ensures forall i :: 0 <= i < |made| ==> made[i].path != orphan.value.path
  {
    hide Built, WellFormed;
    var all := Everything(made, orphan);
    assert all[..|made|] == made && all[..|all|] == all;
    assert AddsAt(initial, all, |made|);
    BuiltKeeps(initial, all, |made|);
    BuiltHas(initial, all, |made|, |all|);
    forall i | 0 <= i < |made| ensures made[i].path != orphan.value.path { BuiltHas(initial, all, i, |made|); }
  }

  // The entries before number n are still there.
  ghost predicate PresentTo(made: seq<Made>, tree: Tree, n: nat) {
    n <= |made| && forall j :: 0 <= j < n ==> made[j].path in tree
  }

  // Undoing has come down to entry n. As long as it is clean, what comes after is gone.
  ghost predicate Undoing(initial: Tree, made: seq<Made>, orphan: Option<Made>, tree: Tree, n: nat, clean: bool) {
    && n <= |made| && Between(initial, made, orphan, tree)
    && (clean ==> GoneFrom(made, orphan, tree, n) && PresentTo(made, tree, n))
  }

  lemma CleanupStart(initial: Tree, made: seq<Made>, orphan: Option<Made>)
    requires Laid(initial, Everything(made, orphan))
    ensures Undoing(initial, made, orphan, Built(initial, Everything(made, orphan)), |made|, true)
  {
    hide Built, WellFormed;
    EverythingIsBetween(initial, made, orphan);
    var all := Everything(made, orphan);
    assert all[..|all|] == all;
    forall j | 0 <= j < |made| ensures made[j].path in Built(initial, all) { BuiltHas(initial, all, j, |all|); }
  }

  // The next entry to undo: what it is, and that it is a leaf unless it holds the orphan.
  lemma UndoNext(initial: Tree, made: seq<Made>, orphan: Option<Made>, tree: Tree, n: nat, clean: bool)
    requires Undoing(initial, made, orphan, tree, n + 1, clean)
    ensures clean ==> made[n].path in tree && tree[made[n].path] == made[n].node
    ensures clean && HasChild(tree, made[n].path) ==> LeadsTo(made[n].path, orphan)
  {
    hide Laid, Built, HasChild;
    StaysBetween(initial, made, orphan, tree, n);
    if clean && HasChild(tree, made[n].path) { HoldsOrphan(initial, made, orphan, tree, n); }
  }

  lemma UndoStep(initial: Tree, made: seq<Made>, orphan: Option<Made>, before: Tree, now: Tree, n: nat, clean: bool,
                 cleanNow: bool)
    requires Undoing(initial, made, orphan, before, n + 1, clean) && (cleanNow ==> clean)
    requires now == before || now == before - {made[n].path}
    requires cleanNow ==> now == before - {made[n].path} || LeadsTo(made[n].path, orphan)
    ensures Undoing(initial, made, orphan, now, n, cleanNow)
  {
    hide Laid, Built;
    StaysBetween(initial, made, orphan, before, n);
    PathsDiffer(initial, made, orphan, n);
  }

  lemma PathsDiffer(initial: Tree, made: seq<Made>, orphan: Option<Made>, n: nat)
    requires Laid(initial, Everything(made, orphan)) && n < |made|
    ensures forall j :: 0 <= j < n ==> made[j].path != made[n].path
  {
    hide Built, WellFormed;
    var all := Everything(made, orphan);
    assert AddsAt(initial, all, n);
    forall j | 0 <= j < n ensures made[j].path != made[n].path { BuiltHas(initial, all, j, n); }
  }

  // Two lists laid one after the other.
  lemma {:induction false} LaidJoin(t: Tree, a: seq<Made>, b: seq<Made>)
    requires Laid(t, a) && Laid(Built(t, a), b)
    ensures Laid(t, a + b) && Built(t, a + b) == Built(Built(t, a), b)
    decreases |b|
  {
    if b == [] { assert a + b == a; }
    else {
      var init, last := b[..|b| - 1], b[|b| - 1];
      forall i | 0 <= i < |init| ensures AddsAt(Built(t, a), init, i) {
        assert init[..i] == b[..i] && AddsAt(Built(t, a), b, i);
      }
      LaidJoin(t, a, init);
      assert AddsAt(Built(t, a), b, |init|);
      LaidMore(t, a + init, last);
      assert a + b == a + init + [last];
    }
  }

  // ---------------------------------------------------------------- the calls

  // Calls of a role in sure never fail for reasons of their own, calls of a role in dead
  // always do, and others may or may not.
  class Disk {
    const sure: set<Role>
    const dead: set<Role>
    var tree: Tree
    var nextId: nat
    ghost var faults: Faults

    constructor (tree: Tree, nextId: nat, sure: set<Role>, dead: set<Role>)
      requires WellFormed(tree) && Identified(tree, nextId) && sure !! dead
      ensures Valid() && this.tree == tree && this.sure == sure && this.dead == dead
    {
      this.tree, this.nextId, this.sure, this.dead := tree, nextId, sure, dead;
      faults := Faults(0, 0, 0, 0);
    }

    ghost predicate Valid()
      reads this
    {
      WellFormed(tree) && Identified(tree, nextId) && sure !! dead
    }

    // No fault has gone away since, and none of a sure role has come.
    ghost predicate Since(before: Faults)
      reads this
    {
      && Later(before.work, faults.work, Work) && Later(before.directoryProbe, faults.directoryProbe, DirectoryProbe)
      && Later(before.fileProbe, faults.fileProbe, FileProbe) && Later(before.undo, faults.undo, Undo)
    }

    predicate Later(before: nat, now: nat, r: Role) { before <= now && (r in sure ==> now == before)
    }

    // Faults have come in the role given only.
    ghost predicate OnlyWork(before: Faults)
      reads this
    {
      Since(before) && faults == before.(work := faults.work)
    }

    ghost predicate NoUndo(before: Faults)
      reads this
    {
      Since(before) && faults.undo == before.undo
    }

    ghost predicate OnlyUndo(before: Faults)
      reads this
    {
      Since(before) && faults == before.(undo := faults.undo)
    }

    // At most one fault has come, of this role.
    ghost predicate Moved(before: Faults, role: Role)
      reads this
    {
      faults == before || (faults == before.Plus(role) && role !in sure)
    }

    method Flaky(role: Role) returns (broken: bool)
      modifies this`faults
      ensures Moved(old(faults), role) && (broken <==> faults != old(faults))
      ensures role in dead && role !in sure ==> broken
    {
      broken := *;
      if role in sure { broken := false; } else if role in dead { broken := true; }
      if broken { faults := faults.Plus(role); }
    }

    method Lstat(p: Path, role: Role) returns (s: Status)
      modifies this`faults
      ensures Moved(old(faults), role) && (faults == old(faults) <==> !s.Unreadable?)
      ensures role in dead && role !in sure ==> s.Unreadable?
      ensures s.Found? ==> p in tree && s.node == tree[p]
      ensures s.Missing? ==> p !in tree
    {
      var broken := Flaky(role);
      if broken { return Unreadable; }
      return if p in tree then Found(tree[p]) else Missing;
    }

    method Mkdir(p: Path) returns (e: Errno)
      requires Valid()
      modifies this
      ensures Valid() && nextId >= old(nextId) && Moved(old(faults), Work)
      ensures e == Done ==> p != [] && p !in old(tree) && IsDirectory(old(tree), Parent(p))
                            && tree == old(tree)[p := Node(old(nextId), Directory)]
      ensures e != Done ==> tree == old(tree)
      ensures e == Exists ==> p in tree
      ensures e == Done || e == Exists ==> faults == old(faults)
      ensures faults == old(faults) && p != [] && p !in old(tree) && IsDirectory(old(tree), Parent(p)) ==> e == Done
    {
      e := Add(p, Directory);
    }

    // open with O_CREAT and O_EXCL.
    method CreateExclusive(p: Path) returns (e: Errno)
      requires Valid()
      modifies this
      ensures Valid() && nextId >= old(nextId) && Moved(old(faults), Work)
      ensures e == Done ==> p != [] && p !in old(tree) && IsDirectory(old(tree), Parent(p))
                            && tree == old(tree)[p := Node(old(nextId), File([]))]
      ensures e != Done ==> tree == old(tree)
      ensures e == Exists ==> p in tree
      ensures e == Done || e == Exists ==> faults == old(faults)
      ensures faults == old(faults) && p != [] && p !in old(tree) && IsDirectory(old(tree), Parent(p)) ==> e == Done
    {
      e := Add(p, File([]));
    }

    method Add(p: Path, content: Content) returns (e: Errno)
      requires Valid() && (content.Directory? || content.File?)
      modifies this
      ensures Valid() && nextId >= old(nextId) && Moved(old(faults), Work)
      ensures e == Done ==> p != [] && p !in old(tree) && IsDirectory(old(tree), Parent(p))
                            && tree == old(tree)[p := Node(old(nextId), content)]
      ensures e != Done ==> tree == old(tree)
      ensures e == Exists ==> p in tree
      ensures e == Done || e == Exists ==> faults == old(faults)
      ensures faults == old(faults) && p != [] && p !in old(tree) && IsDirectory(old(tree), Parent(p)) ==> e == Done
    {
      if p in tree { return Exists; }
      var broken := Flaky(Work);
      if broken { return Failed; }
      if p == [] || Parent(p) !in tree { return Absent; }
      if tree[Parent(p)].content != Directory { return Failed; }
      tree := tree[p := Node(nextId, content)];
      nextId := nextId + 1;
      return Done;
    }

    // open for reading, not following links, and the check that it is a regular file.
    method OpenRegular(p: Path) returns (ok: bool)
      modifies this`faults
      ensures Moved(old(faults), Work) && (ok ==> faults == old(faults) && p in tree && tree[p].content.File?)
      ensures faults == old(faults) && p in tree && tree[p].content.File? ==> ok
    {
      var broken := Flaky(Work);
      if broken { return false; }
      return p in tree && tree[p].content.File?;
    }

    // read: some bytes from an offset on, none at the end, or an error.
    method Read(p: Path, offset: nat, limit: nat) returns (ok: bool, bytes: seq<byte>)
      requires p in tree && tree[p].content.File? && offset <= |tree[p].content.data| && limit > 0
      modifies this`faults
      ensures Moved(old(faults), Work) && (faults == old(faults) <==> ok)
      ensures ok ==> offset + |bytes| <= |tree[p].content.data|
                     && bytes == tree[p].content.data[offset..offset + |bytes|]
      ensures ok && bytes == [] ==> offset == |tree[p].content.data|
    {
      var broken := Flaky(Work);
      if broken { return false, []; }
      var data := tree[p].content.data;
      var count: int := *;
      if count <= 0 || count > limit { count := 1; }
      if count > |data| - offset { count := |data| - offset; }
      return true, data[offset..offset + count];
    }

    // write at the end: how many bytes were taken, or 0 for an error.
    method Append(p: Path, bytes: seq<byte>) returns (written: nat)
      requires Valid() && p in tree && tree[p].content.File? && bytes != []
      modifies this
      ensures Valid() && nextId == old(nextId) && written <= |bytes|
      ensures Moved(old(faults), Work) && (faults == old(faults) <==> written > 0)
      ensures tree == Appended(old(tree), p, bytes[..written])
    {
      var broken := Flaky(Work);
      var count: int := *;
      if count <= 0 || count > |bytes| { count := 1; }
      written := if broken then 0 else count;
      tree := tree[p := tree[p].(content := File(tree[p].content.data + bytes[..written]))];
    }

    method Close(role: Role) returns (ok: bool)
      modifies this`faults
      ensures Moved(old(faults), role) && (faults == old(faults) <==> ok)
    {
      var broken := Flaky(role);
      return !broken;
    }

    method Unlink(p: Path) returns (e: Errno)
      requires Valid()
      modifies this
      ensures Valid() && nextId == old(nextId) && Moved(old(faults), Undo)
      ensures e == Done ==> p in old(tree) && old(tree)[p].content != Directory && tree == old(tree) - {p}
      ensures e != Done ==> tree == old(tree)
      ensures e == Absent ==> p !in tree
      ensures faults == old(faults) && p in old(tree) && old(tree)[p].content != Directory ==> e == Done
      ensures faults != old(faults) ==> e == Failed
      ensures e != Exists && e != NotEmpty
    {
      if p !in tree { return Absent; }
      var broken := Flaky(Undo);
      if broken || tree[p].content == Directory { return Failed; }
      FileHasNoChild(tree, p);
      LeafRemoved(tree, p, nextId);
      tree := tree - {p};
      return Done;
    }

    method Rmdir(p: Path) returns (e: Errno)
      requires Valid()
      modifies this
      ensures Valid() && nextId == old(nextId) && Moved(old(faults), Undo)
      ensures e == Done ==> p in old(tree) && old(tree)[p].content == Directory && !HasChild(old(tree), p)
                            && tree == old(tree) - {p}
      ensures e != Done ==> tree == old(tree)
      ensures e == Absent ==> p !in tree
      ensures e == NotEmpty ==> HasChild(tree, p)
      ensures faults == old(faults) && p in old(tree) && old(tree)[p].content == Directory ==>
                e == Done || e == NotEmpty
      ensures faults != old(faults) ==> e == Failed
      ensures e != Exists
    {
      if p !in tree { return Absent; }
      var broken := Flaky(Undo);
      if broken || tree[p].content != Directory { return Failed; }
      var inside := set q | q in tree && q != [] && Parent(q) == p;
      if inside != {} { return NotEmpty; }
      forall q | q in tree && q != [] ensures Parent(q) != p { assert q !in inside; }
      LeafRemoved(tree, p, nextId);
      tree := tree - {p};
      return Done;
    }
  }
}
