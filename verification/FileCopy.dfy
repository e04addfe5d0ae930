// Copying a file to a new one, as src/compat/materializer.cpp and
// src/backend/proton_runtime.cpp do it.
module FileCopy {
  import opened LittleEndian
  import opened FileSystem

  const BUFFER_SIZE: nat := 65536

  ghost predicate CanCreate(t: Tree, p: Path) { p != [] && p !in t && IsDirectory(t, Parent(p)) }

  // mkdir, and the identity to record. A directory whose status cannot be read is left
  // behind without being recorded: the orphan.
  method MakeDirectory(disk: Disk, directory: Path, ghost initial: Tree, ghost made: seq<Made>)
    returns (e: Errno, id: Option<nat>, ghost now: seq<Made>, ghost orphan: Option<Made>)
    requires disk.Valid() && Laid(initial, made) && disk.tree == Built(initial, made)
    modifies disk
    ensures disk.Valid() && disk.NoUndo(old(disk.faults)) && disk.faults.fileProbe == old(disk.faults.fileProbe)
    ensures Laid(initial, Everything(now, orphan)) && disk.tree == Built(initial, Everything(now, orphan))
    ensures id.None? ==> now == made
    ensures id.Some? ==> orphan.None? && now == made + [Made(directory, Node(id.value, Directory))]
    ensures orphan.Some? <==> disk.faults.directoryProbe > old(disk.faults.directoryProbe)
    ensures orphan.Some? ==> orphan.value.path == directory && orphan.value.node.content == Directory
    ensures e == Done <==> id.Some? || orphan.Some?
    ensures e == Exists ==> directory in disk.tree
    ensures e == Exists || id.Some? ==> disk.faults == old(disk.faults)
    ensures e == Done ==> directory !in old(disk.tree) && IsDirectory(disk.tree, directory)
    ensures if e == Done then disk.tree == old(disk.tree)[directory := disk.tree[directory]]
            else disk.tree == old(disk.tree)
    ensures disk.faults == old(disk.faults) && CanCreate(old(disk.tree), directory) ==> id.Some?
    ensures DirectoryProbe in disk.dead ==> id.None?
  {
    hide Laid, Built, WellFormed, Identified;
    now, orphan, id := made, None, None;
    ghost var m := Made(directory, Node(disk.nextId, Directory));
    e := disk.Mkdir(directory);
    if e != Done { return; }
    LaidMore(initial, made, m);
    var probe := disk.Lstat(directory, DirectoryProbe);
    if !probe.Found? || probe.node.content != Directory {
      orphan := Some(m);
      return;
    }
    now := made + [m];
    id := Some(probe.node.id);
  }

  // write_all: retries until everything is written or a write fails.
  method WriteAll(disk: Disk, target: Path, bytes: seq<byte>) returns (ok: bool, ghost written: nat)
    requires disk.Valid() && target in disk.tree && disk.tree[target].content.File?
    modifies disk
    ensures disk.Valid() && disk.nextId == old(disk.nextId) && disk.OnlyWork(old(disk.faults))
    ensures written <= |bytes| && (ok ==> written == |bytes|) && (disk.faults == old(disk.faults) <==> ok)
    ensures disk.tree == Appended(old(disk.tree), target, bytes[..written])
  {
    hide WellFormed, Identified, Appended;
    var done := 0;
    AppendedNothing(disk.tree, target);
    while done < |bytes|
      invariant done <= |bytes| && disk.Valid() && disk.nextId == old(disk.nextId) && disk.Since(old(disk.faults))
      invariant disk.faults == old(disk.faults)
      invariant disk.tree == Appended(old(disk.tree), target, bytes[..done])
    {
      var count := disk.Append(target, bytes[done..]);
      assert bytes[..done] + bytes[done..][..count] == bytes[..done + count];
      AppendedMore(old(disk.tree), target, bytes[..done], bytes[done..][..count]);
      done := done + count;
      if count == 0 { return false, done; }
    }
    return true, done;
  }

  // copy_file_exclusive and copy_regular_file. id is the identity to record, if the target
  // got that far. A target whose status cannot be read back is unlinked again, and only when
  // that fails too it is left behind: the orphan.
  method CopyExclusive(disk: Disk, source: Path, target: Path, ghost initial: Tree, ghost made: seq<Made>)
    returns (ok: bool, id: Option<nat>, ghost now: seq<Made>, ghost orphan: Option<Made>)
    requires disk.Valid() && Laid(initial, made) && disk.tree == Built(initial, made) && IsRegular(initial, source)
    modifies disk
    ensures disk.Valid() && disk.Since(old(disk.faults))
    ensures disk.faults.directoryProbe == old(disk.faults.directoryProbe)
    ensures Laid(initial, Everything(now, orphan)) && disk.tree == Built(initial, Everything(now, orphan))
    ensures id.None? ==> !ok && now == made
    ensures id.Some? ==> orphan.None? && Appends(made, now, target, id.value)
    ensures orphan.Some? <==> disk.faults.undo > old(disk.faults.undo)
    ensures orphan.Some? ==> orphan.value.path == target && disk.faults.fileProbe > old(disk.faults.fileProbe)
    ensures ok ==> id.Some? && now[|made|].node.content == initial[source].content
    ensures ok ==> disk.faults == old(disk.faults)
    ensures disk.faults == old(disk.faults) && CanCreate(old(disk.tree), target) ==> ok
  {
    hide Laid, Built, WellFormed, Identified;
    now, orphan, id := made, None, None;
    SourceStays(initial, made, source);
    var readable := disk.OpenRegular(source);
    if !readable { return false, id, now, orphan; }
    ghost var before := disk.tree;
    ghost var inode := disk.nextId;
    var created := disk.CreateExclusive(target);
    if created != Done { return false, id, now, orphan; }
    var probe := disk.Lstat(target, FileProbe);
    if !probe.Found? {
      var undone := disk.Unlink(target);
      if undone == Done { assert disk.tree == before; }
      else {
        orphan := Some(Made(target, Node(inode, File([]))));
        LaidMore(initial, made, orphan.value);
      }
      return false, id, now, orphan;
    }
    id := Some(probe.node.id);
    LaidMore(initial, made, Made(target, Node(inode, File([]))));
    ok, now := CopyContents(disk, source, target, initial, made, inode);
    if ok { ok := disk.Close(Work); }
  }

  // The loop that copies into the new file.
  method CopyContents(disk: Disk, source: Path, target: Path, ghost initial: Tree, ghost made: seq<Made>,
                      ghost inode: nat)
    returns (ok: bool, ghost now: seq<Made>)
    requires disk.Valid() && IsRegular(initial, source) && source != target
    requires var now := made + [Made(target, Node(inode, File([])))];
      Laid(initial, now) && disk.tree == Built(initial, now)
    modifies disk
    ensures disk.Valid() && disk.OnlyWork(old(disk.faults)) && (ok <==> disk.faults == old(disk.faults))
    ensures Laid(initial, now) && disk.tree == Built(initial, now) && Appends(made, now, target, inode)
    ensures ok ==> now[|made|].node.content == initial[source].content
  {
    hide Laid, Built, WellFormed, Identified;
    ghost var data := initial[source].content.data;
    assert data[..0] == [];
    now := made + [Made(target, Node(inode, File(data[..0])))];
    var offset := 0;
    while true
      invariant disk.Valid() && offset <= |data| && disk.faults == old(disk.faults)
      invariant now == made + [Made(target, Node(inode, File(data[..offset])))]
      invariant Laid(initial, now) && disk.tree == Built(initial, now)
      decreases |data| - offset
    {
      SourceStays(initial, now, source);
      BuiltLast(initial, made, now[|made|]);
      var valid, bytes := disk.Read(source, offset, BUFFER_SIZE);
      if !valid { return false, now; }
      if bytes == [] { break; }
      var wrote, count := WriteAll(disk, target, bytes);
      ghost var next := Made(target, Node(inode, File(data[..offset] + bytes[..count])));
      assert data[..offset] + bytes[..count] == data[..offset + count];
      RewriteLast(initial, made, now[|made|], next.node);
      now := made + [next];
      if !wrote { return false, now; }
      offset := offset + |bytes|;
    }
    assert data[..offset] == data;
    ok := true;
  }

  ghost predicate Appends(made: seq<Made>, now: seq<Made>, target: Path, id: nat) {
    && |now| == |made| + 1 && now[..|made|] == made && now[|made|].path == target && now[|made|].node.id == id
    && now[|made|].node.content.File? && now == made + [now[|made|]]
  }

  lemma SourceStays(initial: Tree, made: seq<Made>, p: Path)
    requires Laid(initial, made) && p in initial
    ensures p in Built(initial, made) && Built(initial, made)[p] == initial[p]
  {
    BuiltKeeps(initial, made, |made|);
    assert made[..|made|] == made;
  }

  lemma BuiltLast(initial: Tree, made: seq<Made>, m: Made)
    ensures Built(initial, made + [m]) == Built(initial, made)[m.path := m.node]
  {
    assert (made + [m])[..|made|] == made;
  }

}
