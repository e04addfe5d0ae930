// FileExposure (src/compat/materializer.cpp): the files of a profile are copied into drive_c,
// and whatever was created is removed again, in reverse order, when something fails or the
// exposure ends.
module FileExposure {
  import opened LittleEndian
  import opened FileSystem
  import opened FileCopy

  datatype ExposedFile = ExposedFile(source: Path, target: Path)

  // What a profile asks for: a source below the profile's files, a target below drive_c.
  datatype Mapping = Mapping(source: Path, target: Path)

  datatype ExposureStatus = Rejected | Applied | RollbackFailed

  // A path that was created, with the identity its node had then.
  datatype Staged = Staged(path: Path, id: nat)

  datatype Summary = Summary(filesRemoved: nat, directoriesRemoved: nat, pathsRetained: nat, failed: bool)

  // What the staged entries say was created: directories first, then files.
  ghost predicate Records(directories: seq<Staged>, files: seq<Staged>, made: seq<Made>) {
    && |made| == |directories| + |files|
    && (forall i :: 0 <= i < |directories| ==> RecordedAt(directories[i], made[i]) && made[i].node.content == Directory)
    && (forall i :: 0 <= i < |files| ==>
          RecordedAt(files[i], made[|directories| + i]) && made[|directories| + i].node.content.File?)
  }

  predicate RecordedAt(s: Staged, m: Made) { s == Staged(m.path, m.node.id) }

  // Every path that was removed was recorded with the identity of the removed node.
  ghost predicate RemovesRecorded(before: Tree, after: Tree, staged: seq<Staged>) {
    && (forall p :: p in after ==> p in before && after[p] == before[p])
    && (forall p :: p in before && p !in after ==> Staged(p, before[p].id) in staged)
  }

  lemma RemovesCompose(a: Tree, b: Tree, c: Tree, s: Staged, all: seq<Staged>)
    requires RemovesRecorded(a, b, all) && RemovesRecorded(b, c, [s]) && s in all
    ensures RemovesRecorded(a, c, all)
  {
  }

  lemma RemovesJoin(a: Tree, b: Tree, c: Tree, first: seq<Staged>, second: seq<Staged>)
    requires RemovesRecorded(a, b, first) && RemovesRecorded(b, c, second)
    ensures RemovesRecorded(a, c, first + second)
  {
  }

  lemma NothingRemoved(t: Tree, staged: seq<Staged>)
    ensures RemovesRecorded(t, t, staged)
  {
  }

  ghost predicate IsStaged(t: Tree, s: Staged) { s.path in t && t[s.path].id == s.id }

  class FileExposure {
    var status: ExposureStatus
    var files: seq<ExposedFile>
    var stagedFiles: seq<Staged>
    var stagedDirectories: seq<Staged>
    var summary: Summary
    var cleanupDone: bool

    constructor ()
      ensures status == Rejected && files == [] && stagedFiles == [] && stagedDirectories == []
      ensures summary == Summary(0, 0, 0, false) && !cleanupDone
    {
      status, files, stagedFiles, stagedDirectories := Rejected, [], [], [];
      summary, cleanupDone := Summary(0, 0, 0, false), false;
    }

    // The tree is the initial one with exactly the recorded nodes added, and the orphan.
    ghost predicate Tracks(initial: Tree, made: seq<Made>, orphan: Option<Made>, tree: Tree)
      reads this`cleanupDone, this`summary, this`stagedDirectories, this`stagedFiles
    {
      && !cleanupDone && summary == Summary(0, 0, 0, false) && Records(stagedDirectories, stagedFiles, made)
      && Laid(initial, Everything(made, orphan)) && tree == Built(initial, Everything(made, orphan))
    }

    // cleanup, whatever the disk looks like by now: it removes only nodes that still are the
    // ones created, and does nothing when called again. If nobody else changed the disk, what
    // was there is kept, and unless a call of the cleanup fails, everything created is gone
    // but the orphan and the directories it lies in.
    method Cleanup(disk: Disk, ghost initial: Tree, ghost made: seq<Made>, ghost orphan: Option<Made>)
      returns (ok: bool)
      requires disk.Valid()
      modifies this, disk
      ensures disk.Valid() && cleanupDone && ok == !summary.failed
      ensures disk.OnlyUndo(old(disk.faults))
      ensures RemovesRecorded(old(disk.tree), disk.tree, old(stagedFiles + stagedDirectories))
      ensures old(cleanupDone) ==> disk.tree == old(disk.tree) && summary == old(summary)
      ensures status == old(status) && files == old(files)
      ensures stagedFiles == old(stagedFiles) && stagedDirectories == old(stagedDirectories)
      ensures old(Tracks(initial, made, orphan, disk.tree)) ==>
                Between(initial, made, orphan, disk.tree) && (ok <==> disk.faults == old(disk.faults))
                && (ok ==> GoneFrom(made, orphan, disk.tree, 0))
                && (ok && orphan.None? ==>
                      summary == Summary(|stagedFiles|, |stagedDirectories|, 0, false))
    {
      hide Records, Laid, Built, RemovesRecorded, WellFormed, Identified, Between, GoneFrom, PresentTo, Everything;
      NothingRemoved(disk.tree, stagedFiles + stagedDirectories);
      if cleanupDone { return !summary.failed; }
      cleanupDone := true;
      ghost var tracked := old(Tracks(initial, made, orphan, disk.tree));
      ghost var start := disk.tree;
      if tracked { CleanupStart(initial, made, orphan); }
      RemoveFiles(disk, tracked, initial, made, orphan);
      ghost var middle := disk.tree;
      RemoveDirectories(disk, tracked, initial, made, orphan);
      RemovesJoin(start, middle, disk.tree, stagedFiles, stagedDirectories);
      return !summary.failed;
    }

    // The first loop of cleanup.
    method RemoveFiles(disk: Disk, ghost tracked: bool, ghost initial: Tree, ghost made: seq<Made>,
                       ghost orphan: Option<Made>)
      requires disk.Valid()
      requires tracked ==> summary == Summary(0, 0, 0, false) && Records(stagedDirectories, stagedFiles, made)
                           && Undoing(initial, made, orphan, disk.tree, |made|, true)
      modifies this`summary, disk
      ensures disk.Valid() && RemovesRecorded(old(disk.tree), disk.tree, stagedFiles)
      ensures disk.OnlyUndo(old(disk.faults))
      ensures tracked ==>
                Undoing(initial, made, orphan, disk.tree, |stagedDirectories|, !summary.failed)
                && (summary.failed <==> disk.faults != old(disk.faults))
                && (!summary.failed ==> summary == Summary(|stagedFiles|, 0, 0, false))
    {
      hide Laid, Built, WellFormed, Identified, HasChild, Undoing;
      var k: nat := |stagedFiles|;
      while k > 0
        invariant k <= |stagedFiles| && disk.Valid() && RemovesRecorded(old(disk.tree), disk.tree, stagedFiles)
        invariant disk.OnlyUndo(old(disk.faults))
        invariant tracked ==>
                    Undoing(initial, made, orphan, disk.tree, |stagedDirectories| + k, !summary.failed)
                    && (summary.failed <==> disk.faults != old(disk.faults))
                    && (!summary.failed ==> summary == Summary(|stagedFiles| - k, 0, 0, false))
      {
        k := k - 1;
        ghost var before, n, clean := disk.tree, |stagedDirectories| + k, !summary.failed;
        if tracked { UndoNext(initial, made, orphan, before, n, clean); }
        RemoveFile(disk, stagedFiles[k]);
        RemovesCompose(old(disk.tree), before, disk.tree, stagedFiles[k], stagedFiles);
        if tracked { UndoStep(initial, made, orphan, before, disk.tree, n, clean, !summary.failed); }
      }
    }

    // The second loop of cleanup: directories, innermost first.
    method RemoveDirectories(disk: Disk, ghost tracked: bool, ghost initial: Tree, ghost made: seq<Made>,
                             ghost orphan: Option<Made>)
      requires disk.Valid()
      requires tracked ==>
                 Records(stagedDirectories, stagedFiles, made)
                 && Undoing(initial, made, orphan, disk.tree, |stagedDirectories|, !summary.failed)
                 && (!summary.failed ==> summary == Summary(|stagedFiles|, 0, 0, false))
      modifies this`summary, disk
      ensures disk.Valid() && RemovesRecorded(old(disk.tree), disk.tree, stagedDirectories)
      ensures disk.OnlyUndo(old(disk.faults))
      ensures tracked ==>
                Undoing(initial, made, orphan, disk.tree, 0, !summary.failed)
                && (summary.failed <==> old(summary.failed) || disk.faults != old(disk.faults))
                && (!summary.failed && orphan.None? ==>
                      summary == Summary(|stagedFiles|, |stagedDirectories|, 0, false))
    {
      hide Laid, Built, WellFormed, Identified, HasChild, Undoing;
      var k: nat := |stagedDirectories|;
      while k > 0
        invariant k <= |stagedDirectories| && disk.Valid()
        invariant RemovesRecorded(old(disk.tree), disk.tree, stagedDirectories)
        invariant disk.OnlyUndo(old(disk.faults))
        invariant tracked ==>
                    Undoing(initial, made, orphan, disk.tree, k, !summary.failed)
                    && (summary.failed <==> old(summary.failed) || disk.faults != old(disk.faults))
                    && (!summary.failed && orphan.None? ==>
                          summary == Summary(|stagedFiles|, |stagedDirectories| - k, 0, false))
      {
        k := k - 1;
        ghost var before, clean := disk.tree, !summary.failed;
        if tracked { UndoNext(initial, made, orphan, before, k, clean); }
        RemoveDirectory(disk, stagedDirectories[k]);
        RemovesCompose(old(disk.tree), before, disk.tree, stagedDirectories[k], stagedDirectories);
        if tracked { UndoStep(initial, made, orphan, before, disk.tree, k, clean, !summary.failed); }
      }
    }

    // One step of the first loop of cleanup.
    method RemoveFile(disk: Disk, staged: Staged)
      requires disk.Valid()
      modifies this`summary, disk
      ensures disk.Valid() && RemovesRecorded(old(disk.tree), disk.tree, [staged])
      ensures disk.OnlyUndo(old(disk.faults))
      ensures disk.tree == old(disk.tree) || disk.tree == old(disk.tree) - {staged.path}
      ensures old(summary.failed) || disk.faults != old(disk.faults) ==> summary.failed
      ensures old(IsStaged(disk.tree, staged)) && !old(disk.tree)[staged.path].content.Directory? ==>
                (summary.failed <==> old(summary.failed) || disk.faults != old(disk.faults))
                && (!summary.failed ==>
                      disk.tree == old(disk.tree) - {staged.path}
                      && summary == old(summary).(filesRemoved := old(summary.filesRemoved) + 1))
    {
      hide WellFormed, Identified;
      var found := disk.Lstat(staged.path, Undo);
      RemoveSeenFile(disk, staged, found);
      var closed := disk.Close(Undo);
      if !closed { summary := summary.(failed := true); }
    }

    // What follows the query, whatever has become of the tree since. Only the recorded path can
    // go, and only as a file that was seen with the recorded identity: what goes is the
    // recorded node exactly when nobody has replaced it in between.
    method RemoveSeenFile(disk: Disk, staged: Staged, found: Status)
      requires disk.Valid()
      modifies this`summary, disk
      ensures disk.Valid() && disk.OnlyUndo(old(disk.faults))
      ensures disk.tree == old(disk.tree) || disk.tree == old(disk.tree) - {staged.path}
      ensures disk.tree != old(disk.tree) ==>
                found.Found? && found.node.id == staged.id && !old(disk.tree)[staged.path].content.Directory?
      ensures RemovesRecorded(old(disk.tree), disk.tree, [staged]) <==>
                disk.tree == old(disk.tree) || old(IsStaged(disk.tree, staged))
      ensures old(summary.failed) || disk.faults != old(disk.faults) || found.Unreadable? ==> summary.failed
      ensures found.Found? && found.node.id == staged.id && staged.path in old(disk.tree)
              && !old(disk.tree)[staged.path].content.Directory? ==>
                (summary.failed <==> old(summary.failed) || disk.faults != old(disk.faults))
                && (!summary.failed ==>
                      disk.tree == old(disk.tree) - {staged.path}
                      && summary == old(summary).(filesRemoved := old(summary.filesRemoved) + 1))
    {
      hide WellFormed, Identified;
      match found {
        case Found(node) =>
          if node.id != staged.id {
            summary := summary.(pathsRetained := summary.pathsRetained + 1);
          } else {
            var e := disk.Unlink(staged.path);
            if e == Done || e == Absent { summary := summary.(filesRemoved := summary.filesRemoved + 1); }
            else { summary := summary.(failed := true); }
          }
        case Missing =>
        case Unreadable => summary := summary.(failed := true);
      }
    }

    // One step of the second loop.
    method RemoveDirectory(disk: Disk, staged: Staged)
      requires disk.Valid()
      modifies this`summary, disk
      ensures disk.Valid() && RemovesRecorded(old(disk.tree), disk.tree, [staged])
      ensures disk.OnlyUndo(old(disk.faults))
      ensures disk.tree == old(disk.tree) || disk.tree == old(disk.tree) - {staged.path}
      ensures old(summary.failed) || disk.faults != old(disk.faults) ==> summary.failed
      ensures old(IsStaged(disk.tree, staged)) && old(disk.tree)[staged.path].content.Directory? ==>
                (summary.failed <==> old(summary.failed) || disk.faults != old(disk.faults))
                && (!summary.failed ==>
                      if HasChild(old(disk.tree), staged.path) then disk.tree == old(disk.tree)
                      else disk.tree == old(disk.tree) - {staged.path}
                           && summary == old(summary).(directoriesRemoved := old(summary.directoriesRemoved) + 1))
    {
      hide WellFormed, Identified, HasChild;
      var found := disk.Lstat(staged.path, Undo);
      RemoveSeenDirectory(disk, staged, found);
    }

    // The same for a directory, which can only go when it is empty.
    method RemoveSeenDirectory(disk: Disk, staged: Staged, found: Status)
      requires disk.Valid()
      modifies this`summary, disk
      ensures disk.Valid() && disk.OnlyUndo(old(disk.faults))
      ensures disk.tree == old(disk.tree) || disk.tree == old(disk.tree) - {staged.path}
      ensures disk.tree != old(disk.tree) ==>
                found.Found? && found.node.id == staged.id && old(disk.tree)[staged.path].content.Directory?
                && !HasChild(old(disk.tree), staged.path)
      ensures RemovesRecorded(old(disk.tree), disk.tree, [staged]) <==>
                disk.tree == old(disk.tree) || old(IsStaged(disk.tree, staged))
      ensures old(summary.failed) || disk.faults != old(disk.faults) || found.Unreadable? ==> summary.failed
      ensures found.Found? && found.node.id == staged.id && staged.path in old(disk.tree)
              && old(disk.tree)[staged.path].content.Directory? ==>
                (summary.failed <==> old(summary.failed) || disk.faults != old(disk.faults))
                && (!summary.failed ==>
                      if HasChild(old(disk.tree), staged.path) then disk.tree == old(disk.tree)
                      else disk.tree == old(disk.tree) - {staged.path}
                           && summary == old(summary).(directoriesRemoved := old(summary.directoriesRemoved) + 1))
    {
      hide WellFormed, Identified, HasChild;
      match found {
        case Found(node) =>
          if node.id != staged.id {
            summary := summary.(pathsRetained := summary.pathsRetained + 1);
          } else {
            var e := disk.Rmdir(staged.path);
            if e == Done || e == Absent {
              summary := summary.(directoriesRemoved := summary.directoriesRemoved + 1);
            } else if e == NotEmpty || e == Exists {
              summary := summary.(pathsRetained := summary.pathsRetained + 1);
            } else {
              summary := summary.(failed := true);
            }
          }
        case Missing =>
        case Unreadable => summary := summary.(failed := true);
      }
    }

    // ------------------------------------------------------------ creating

    // copy_file_exclusive. A target whose status cannot be read back is unlinked again, and
    // when that fails too it is left behind: the orphan.
    method CopyFileExclusive(disk: Disk, exposed: ExposedFile, ghost initial: Tree, ghost made: seq<Made>)
      returns (ok: bool, ghost now: seq<Made>, ghost orphan: Option<Made>)
      requires disk.Valid() && Tracks(initial, made, None, disk.tree) && IsRegular(initial, exposed.source)
      modifies this`stagedFiles, disk
      ensures disk.Valid() && disk.Since(old(disk.faults))
      ensures Tracks(initial, now, orphan, disk.tree)
      ensures disk.faults.directoryProbe == old(disk.faults.directoryProbe)
      ensures orphan.Some? <==> disk.faults.undo > old(disk.faults.undo)
      ensures orphan.Some? ==> !ok && orphan.value.path == exposed.target
                               && disk.faults.fileProbe > old(disk.faults.fileProbe)
      ensures ok ==> orphan.None? && CopyMade(made, now, exposed.target, initial[exposed.source].content)
      ensures disk.faults == old(disk.faults) && CanCreate(old(disk.tree), exposed.target) ==> ok
    {
      hide Laid, Built, Records, WellFormed, Identified;
      var id;
      ok, id, now, orphan := CopyExclusive(disk, exposed.source, exposed.target, initial, made);
      if id.Some? {
        RecordFile(stagedDirectories, stagedFiles, made, now[|made|]);
        stagedFiles := stagedFiles + [Staged(exposed.target, id.value)];
      }
    }

    // A node that was created but is not recorded: cleanup will not find it.
    ghost predicate Orphaned(p: Path, initial: Tree, tree: Tree)
      reads this
    {
      p !in initial && p in tree && forall s :: s in stagedFiles + stagedDirectories ==> s.path != p
    }

    method CreateDirectory(disk: Disk, directory: Path, ghost initial: Tree, ghost made: seq<Made>)
      returns (ok: bool, ghost now: seq<Made>, ghost orphan: Option<Made>)
      requires disk.Valid() && Tracks(initial, made, None, disk.tree) && stagedFiles == []
      modifies this`stagedDirectories, disk
      ensures disk.Valid() && disk.Since(old(disk.faults)) && disk.faults.undo == old(disk.faults.undo)
      ensures Tracks(initial, now, orphan, disk.tree)
      ensures orphan.Some? <==> disk.faults.directoryProbe > old(disk.faults.directoryProbe)
      ensures orphan.Some? ==> !ok && orphan.value.path == directory
      ensures ok ==> orphan.None? && IsDirectory(disk.tree, directory)
      ensures Keeps(old(disk.tree), disk.tree)
      ensures now == made || (|now| == |made| + 1 && now[..|made|] == made && now[|made|].path == directory)
      ensures disk.faults == old(disk.faults) && CanCreate(old(disk.tree), directory) ==> ok
      ensures DirectoryProbe in disk.dead ==> stagedDirectories == old(stagedDirectories)
    {
      hide Laid, Built, Records, WellFormed, Identified;
      var e, id;
      e, id, now, orphan := MakeDirectory(disk, directory, initial, made);
      if e == Done {
        if id.None? { return false, now, orphan; }
        RecordDirectory(stagedDirectories, stagedFiles, made, now[|made|]);
        stagedDirectories := stagedDirectories + [Staged(directory, id.value)];
        return true, now, orphan;
      }
      if e != Exists { return false, now, orphan; }
      var probe := disk.Lstat(directory, Work);
      return probe.Found? && probe.node.content == Directory, now, orphan;
    }

    // The directories the targets need, each after its parent.
    method CreateDirectories(disk: Disk, required: seq<Path>)
      returns (ok: bool, ghost made: seq<Made>, ghost orphan: Option<Made>)
      requires disk.Valid() && Tracks(disk.tree, [], None, disk.tree) && stagedFiles == []
      modifies this`stagedDirectories, disk
      ensures disk.Valid() && disk.Since(old(disk.faults)) && disk.faults.undo == old(disk.faults.undo)
      ensures Tracks(old(disk.tree), made, orphan, disk.tree)
      ensures orphan.Some? <==> disk.faults.directoryProbe > old(disk.faults.directoryProbe)
      ensures orphan.Some? ==> !ok && orphan.value.path in required
      ensures ok ==> AreDirectories(disk.tree, required)
      ensures PathsIn(made, required)
      ensures disk.faults == old(disk.faults) && ParentsFirst(old(disk.tree), required) ==> ok
      ensures DirectoryProbe in disk.dead ==> stagedDirectories == old(stagedDirectories)
    {
      hide Tracks, WellFormed, Identified, ParentsFirst, CanCreate, IsDirectory, Keeps, AreDirectories, PathsIn;
      ghost var initial := disk.tree;
      assert AreDirectories(initial, []) && PathsIn([], []) by { NoDirectories(initial); }
      made, orphan := [], None;
      for k := 0 to |required|
        invariant disk.Valid() && disk.Since(old(disk.faults)) && disk.faults.undo == old(disk.faults.undo)
        invariant Tracks(initial, made, None, disk.tree) && orphan.None?
        invariant disk.faults.directoryProbe == old(disk.faults.directoryProbe)
        invariant PathsIn(made, required[..k])
        invariant AreDirectories(disk.tree, required[..k])
        invariant DirectoryProbe in disk.dead ==> stagedDirectories == old(stagedDirectories)
      {
        if ParentsFirst(initial, required) { NextCanBeMade(initial, required, made, disk.tree, k); }
        ghost var before, was := made, disk.tree;
        ok, made, orphan := CreateDirectory(disk, required[k], initial, made);
        assert required[..k + 1] == required[..k] + [required[k]];
        PathsStayIn(before, made, required, k);
        if !ok { return false, made, orphan; }
        OneMoreDirectory(was, disk.tree, required[..k], required[k]);
      }
      assert required[..|required|] == required;
      return true, made, orphan;
    }

    lemma NextCanBeMade(initial: Tree, required: seq<Path>, made: seq<Made>, tree: Tree, k: nat)
      requires Tracks(initial, made, None, tree) && ParentsFirst(initial, required) && k < |required|
      requires PathsIn(made, required[..k]) && AreDirectories(tree, required[..k])
      ensures CanCreate(tree, required[k])
    {
      hide Laid, Built, ParentsFirst, PathsIn, AreDirectories, CanCreate;
      NextIsReady(initial, required, made, k);
    }

    // ------------------------------------------------------------ the transaction

    // materialize_into. What was there is kept in any case. A request that is not applied
    // leaves the tree as it was, whatever call of the work failed: unless a call of the
    // cleanup fails as well, the one exception is a created directory whose status cannot be
    // queried. What is left over then is that directory and those it lies in.
    method Materialize(disk: Disk, drive: Path, base: Path, mappings: seq<Mapping>)
      returns (ghost made: seq<Made>, ghost orphan: Option<Made>)
      requires disk.Valid() && status == Rejected && files == [] && stagedFiles == [] && stagedDirectories == []
      requires !cleanupDone && summary == Summary(0, 0, 0, false)
      modifies this, disk
      ensures disk.Valid() && disk.Since(old(disk.faults)) && Keeps(old(disk.tree), disk.tree)
      ensures status == Applied ==>
                Tracks(old(disk.tree), made, None, disk.tree) && Admissible(old(disk.tree), drive, base, mappings)
                && files == Exposed(drive, base, mappings) && AllExposed(old(disk.tree), disk.tree, files)
                && disk.faults.directoryProbe == old(disk.faults.directoryProbe)
      ensures status != Applied && disk.faults.undo == old(disk.faults.undo) ==>
                (disk.tree == old(disk.tree) <==> disk.faults.directoryProbe == old(disk.faults.directoryProbe))
      ensures status != Applied ==> forall p :: p in disk.tree && p !in old(disk.tree) ==>
                LeadsTo(p, orphan) || (disk.faults.undo > old(disk.faults.undo) && WasStaged(p, disk.tree[p].id))
      ensures orphan.Some? ==>
                status != Applied && Orphaned(orphan.value.path, old(disk.tree), disk.tree)
                && (disk.faults.directoryProbe > old(disk.faults.directoryProbe)
                    || (disk.faults.fileProbe > old(disk.faults.fileProbe) && disk.faults.undo > old(disk.faults.undo)))
      ensures status == Rejected ==> (disk.tree == old(disk.tree) <==> orphan.None?)
      ensures status == RollbackFailed ==> disk.faults.undo > old(disk.faults.undo)
      ensures disk.faults == old(disk.faults) ==>
                (status == Applied <==> Admissible(old(disk.tree), drive, base, mappings))
      ensures DirectoryProbe in disk.dead ==> stagedDirectories == []
    {
      hide Tracks, WellFormed, Identified, AllExposed, Exposed, ParentsFirst, TargetsApart, Leads, Admissible, AllOk;
      hide RemovesRecorded, Between, GoneFrom, LeadsTo, Orphaned, WasStaged, Keeps;
      made, orphan := [], None;
      ghost var initial := disk.tree;
      TracksAtFirst(initial);
      var ok, required := Validate(disk, drive, base, mappings);
      if !ok {
        AdmissibleParts(initial, drive, base, mappings);
        KeepsAll(initial);
        return;
      }
      ok, made, orphan := CreateAll(disk, drive, base, mappings, required);
      if ok {
        TrackedKeeps(initial, made, disk.tree);
        status := Applied;
        return;
      }
      AdmissibleParts(initial, drive, base, mappings);
      ghost var before := disk.tree;
      ghost var directories, staged := stagedDirectories, stagedFiles;
      TracksMeans(initial, made, orphan, before);
      var undone := Cleanup(disk, initial, made, orphan);
      if !undone { status := RollbackFailed; }
      LeftAfter(initial, made, orphan, before, disk.tree, directories, staged);
    }

    // The part of materialize_into that creates: the directories, then the copies.
    method CreateAll(disk: Disk, drive: Path, base: Path, mappings: seq<Mapping>, required: seq<Path>)
      returns (ok: bool, ghost made: seq<Made>, ghost orphan: Option<Made>)
      requires disk.Valid() && Tracks(disk.tree, [], None, disk.tree)
      requires files == [] && stagedFiles == [] && stagedDirectories == []
      requires IsDirectory(disk.tree, drive) && ParentsFirst(disk.tree, required)
      requires Leads(disk.tree, drive, mappings, required) && AllOk(disk.tree, drive, base, mappings)
      modifies this`stagedDirectories, this`stagedFiles, this`files, disk
      ensures disk.Valid() && disk.Since(old(disk.faults)) && Tracks(old(disk.tree), made, orphan, disk.tree)
      ensures orphan.Some? <==> disk.faults.directoryProbe > old(disk.faults.directoryProbe)
                                || disk.faults.undo > old(disk.faults.undo)
      ensures disk.faults.undo > old(disk.faults.undo) ==>
                disk.faults.directoryProbe == old(disk.faults.directoryProbe)
                && disk.faults.fileProbe > old(disk.faults.fileProbe)
      ensures ok ==> orphan.None? && Admissible(old(disk.tree), drive, base, mappings)
                     && files == Exposed(drive, base, mappings) && AllExposed(old(disk.tree), disk.tree, files)
      ensures disk.faults == old(disk.faults) && TargetsApart(mappings) ==> ok
      ensures DirectoryProbe in disk.dead ==> stagedDirectories == []
    {
      hide Laid, Built, Records, WellFormed, Identified, MappingOk, AllExposed, Exposed, ParentsFirst, TargetsApart;
      hide Ready, Leads, Admissible, AllOk, PathsIn, AreDirectories, Copied, IsRegular;
      ghost var initial := disk.tree;
      ok, made, orphan := CreateDirectories(disk, required);
      if !ok { return; }
      ghost var directories := made;
      var todo := Exposed(drive, base, mappings);
      SourcesRegular(initial, drive, base, mappings);
      if TargetsApart(mappings) { TargetsReady(initial, drive, base, mappings, required, directories); }
      ok, made, orphan := CopyAll(disk, todo, initial, directories);
      if ok { WholeExposure(initial, drive, base, mappings, required, directories, made); }
    }

    lemma TracksAtFirst(t: Tree)
      requires WellFormed(t) && stagedFiles == [] && stagedDirectories == []
      requires !cleanupDone && summary == Summary(0, 0, 0, false)
      ensures Tracks(t, [], None, t)
    {
      NothingTracked(t);
    }

    lemma TracksMeans(initial: Tree, made: seq<Made>, orphan: Option<Made>, tree: Tree)
      requires Tracks(initial, made, orphan, tree)
      ensures Records(stagedDirectories, stagedFiles, made) && tree == Built(initial, Everything(made, orphan))
    {
    }

    lemma TrackedKeeps(initial: Tree, made: seq<Made>, tree: Tree)
      requires Tracks(initial, made, None, tree)
      ensures Keeps(initial, tree)
    {
      assert made[..|made|] == made;
      BuiltKeeps(initial, made, |made|);
    }

    // What is left of a rejected exposure, said of the object as it is afterwards.
    lemma LeftAfter(initial: Tree, made: seq<Made>, orphan: Option<Made>, before: Tree, after: Tree,
                    directories: seq<Staged>, staged: seq<Staged>)
      requires directories == stagedDirectories && staged == stagedFiles
      requires Records(directories, staged, made) && Between(initial, made, orphan, after)
      requires before == Built(initial, Everything(made, orphan))
      requires RemovesRecorded(before, after, staged + directories)
      ensures Keeps(initial, after)
      ensures orphan.Some? ==> Orphaned(orphan.value.path, initial, after) && after != initial
      ensures GoneFrom(made, orphan, after, 0) ==>
                (forall p :: p in after && p !in initial ==> LeadsTo(p, orphan)) && (orphan.None? ==> after == initial)
      ensures forall p :: p in after && p !in initial ==> LeadsTo(p, orphan) || WasStaged(p, after[p].id)
    {
      hide Records, Between, Built, RemovesRecorded, GoneFrom, LeadsTo;
      Leftovers(initial, made, orphan, before, after, directories, staged);
    }

    // The status of what a failing exposure leaves.
    ghost predicate WasStaged(p: Path, id: nat)
      reads this
    {
      Staged(p, id) in stagedFiles + stagedDirectories
    }

    // The first loop of materialize_into: nothing is created yet.
    static method Validate(disk: Disk, drive: Path, base: Path, mappings: seq<Mapping>)
      returns (ok: bool, required: seq<Path>)
      modifies disk`faults
      ensures disk.OnlyWork(old(disk.faults))
      ensures ok ==> IsDirectory(disk.tree, drive) && ParentsFirst(disk.tree, required)
                     && Leads(disk.tree, drive, mappings, required)
                     && AllOk(disk.tree, drive, base, mappings)
      ensures disk.faults == old(disk.faults) ==>
                (IsDirectory(disk.tree, drive) && AllOk(disk.tree, drive, base, mappings) ==> ok)
    {
      hide SourceOk, TargetOk, ParentsOk, ParentsFirst;
      required := [];
      NoParents(disk.tree);
      var top := disk.Lstat(drive, Work);
      if !top.Found? || top.node.content != Directory { return false, required; }
      for k := 0 to |mappings|
        invariant disk.OnlyWork(old(disk.faults)) && ParentsFirst(disk.tree, required)
        invariant Leads(disk.tree, drive, mappings[..k], required)
        invariant forall i :: 0 <= i < k ==> MappingOk(disk.tree, drive, base, mappings[i])
      {
        var m := mappings[k];
        ok := RegularSource(disk, base, m.source);
        if !ok { return false, required; }
        ok := TargetPath(disk, drive, m.target);
        if !ok { return false, required; }
        ghost var before := required;
        ok, required := CollectParents(disk, drive, m.target, required);
        if !ok { return false, required; }
        LeadsMore(disk.tree, drive, mappings, before, required, k);
      }
      assert mappings[..|mappings|] == mappings;
      return true, required;
    }

    static method CheckNoLinks(disk: Disk, root: Path, relative: Path) returns (ok: bool)
      modifies disk`faults
      ensures disk.OnlyWork(old(disk.faults)) && (ok ==> relative != [] && NoLinks(disk.tree, root, relative))
      ensures disk.faults == old(disk.faults) && relative != [] && NoLinks(disk.tree, root, relative) ==> ok
    {
      if relative == [] { return false; }
      for n := 1 to |relative| + 1
        invariant disk.OnlyWork(old(disk.faults))
        invariant forall m: nat :: 0 < m < n && root + relative[..m] in disk.tree ==>
                    disk.tree[root + relative[..m]].content != Link
      {
        var s := disk.Lstat(root + relative[..n], Work);
        if s.Unreadable? || (s.Found? && s.node.content == Link) { return false; }
      }
      return true;
    }

    static method RegularSource(disk: Disk, base: Path, relative: Path) returns (ok: bool)
      modifies disk`faults
      ensures disk.OnlyWork(old(disk.faults)) && (ok ==> SourceOk(disk.tree, base, relative))
      ensures disk.faults == old(disk.faults) && SourceOk(disk.tree, base, relative) ==> ok
    {
      ok := CheckNoLinks(disk, base, relative);
      if !ok { return false; }
      var s := disk.Lstat(base + relative, Work);
      return s.Found? && s.node.content.File?;
    }

    static method TargetPath(disk: Disk, drive: Path, relative: Path) returns (ok: bool)
      modifies disk`faults
      ensures disk.OnlyWork(old(disk.faults)) && (ok ==> TargetOk(disk.tree, drive, relative))
      ensures disk.faults == old(disk.faults) && TargetOk(disk.tree, drive, relative) ==> ok
    {
      ok := CheckNoLinks(disk, drive, relative);
      if !ok { return false; }
      var s := disk.Lstat(drive + relative, Work);
      return s.Missing?;
    }

    // collect_parent_directories: the missing directories on the way to a target.
    static method CollectParents(disk: Disk, drive: Path, relative: Path, before: seq<Path>)
      returns (ok: bool, required: seq<Path>)
      requires IsDirectory(disk.tree, drive) && ParentsFirst(disk.tree, before) && relative != []
      modifies disk`faults
      ensures disk.OnlyWork(old(disk.faults)) && before <= required && ParentsFirst(disk.tree, required)
      ensures ok ==> ParentsOk(disk.tree, drive, relative)
                     && OnTheWay(disk.tree, drive, relative, |relative|, before, required)
      ensures disk.faults == old(disk.faults) && ParentsOk(disk.tree, drive, relative) ==> ok
    {
      hide ParentsFirst, OnTheWay, ParentsUntil;
      required := before;
      StartOnTheWay(disk.tree, drive, relative, before);
      for n := 1 to |relative|
        invariant disk.OnlyWork(old(disk.faults)) && before <= required && ParentsFirst(disk.tree, required)
        invariant ParentsUntil(disk.tree, drive, relative, n)
        invariant OnTheWay(disk.tree, drive, relative, n, before, required)
      {
        var current := drive + relative[..n];
        NextParent(disk.tree, drive, relative, n);
        var s := disk.Lstat(current, Work);
        if s.Unreadable? || (s.Found? && s.node.content != Directory) { return false, required; }
        ghost var was := required;
        NextOnTheWay(disk.tree, drive, relative, n, before, was);
        if s.Missing? && current !in required {
          OneMoreParent(disk.tree, required, current);
          required := required + [current];
        }
      }
      return true, required;
    }

    // The copies, in the order of the profile.
    method CopyAll(disk: Disk, todo: seq<ExposedFile>, ghost initial: Tree, ghost directories: seq<Made>)
      returns (ok: bool, ghost made: seq<Made>, ghost orphan: Option<Made>)
      requires disk.Valid() && Tracks(initial, directories, None, disk.tree) && files == []
      requires forall i :: 0 <= i < |todo| ==> IsRegular(initial, todo[i].source)
      modifies this`stagedFiles, this`files, disk
      ensures disk.Valid() && disk.Since(old(disk.faults))
      ensures Tracks(initial, made, orphan, disk.tree)
      ensures disk.faults.directoryProbe == old(disk.faults.directoryProbe)
      ensures orphan.Some? <==> disk.faults.undo > old(disk.faults.undo)
      ensures orphan.Some? ==> !ok && disk.faults.fileProbe > old(disk.faults.fileProbe)
      ensures ok ==> orphan.None? && files == todo && Copied(initial, directories, todo, made, |todo|)
      ensures disk.faults == old(disk.faults) && Ready(initial, directories, todo) ==> ok
    {
      hide Laid, Built, Records, WellFormed, Identified, Ready, CanCreate, IsRegular;
      made, orphan := directories, None;
      for k := 0 to |todo|
        invariant disk.Valid() && disk.Since(old(disk.faults)) && orphan.None?
        invariant Tracks(initial, made, None, disk.tree) && files == todo[..k]
        invariant disk.faults.directoryProbe == old(disk.faults.directoryProbe)
        invariant disk.faults.undo == old(disk.faults.undo)
        invariant Copied(initial, directories, todo, made, k)
      {
        if Ready(initial, directories, todo) { ReadyNext(initial, directories, todo, made, k); }
        ghost var before := made;
        ok, made, orphan := CopyFileExclusive(disk, todo[k], initial, before);
        if !ok { return; }
        CopiedMore(initial, directories, todo, before, made, k);
        files := files + [todo[k]];
      }
      assert todo[..|todo|] == todo;
      ok := true;
    }
  }

  // ---------------------------------------------------------------- what can be exposed

  // No link lies on the way from root to a path below it.
  ghost predicate NoLinks(t: Tree, root: Path, relative: Path) {
    forall n: nat :: 0 < n <= |relative| && root + relative[..n] in t ==> t[root + relative[..n]].content != Link
  }

  ghost predicate SourceOk(t: Tree, base: Path, relative: Path) {
    relative != [] && NoLinks(t, base, relative) && IsRegular(t, base + relative)
  }

  ghost predicate TargetOk(t: Tree, drive: Path, relative: Path) {
    relative != [] && NoLinks(t, drive, relative) && drive + relative !in t
  }

  // The directories a target lies in exist as directories, or not at all.
  ghost predicate ParentsOk(t: Tree, drive: Path, relative: Path) {
    ParentsUntil(t, drive, relative, |relative|)
  }

  ghost predicate ParentsUntil(t: Tree, drive: Path, relative: Path, length: nat)
    requires length <= |relative|
  {
    forall n: nat :: 0 < n < length && drive + relative[..n] in t ==> IsDirectory(t, drive + relative[..n])
  }

  // What is there of the directory at length n has to be one.
  lemma NextParent(t: Tree, drive: Path, relative: Path, n: nat)
    requires 0 < n < |relative|
    ensures var p := drive + relative[..n];
      && (ParentsUntil(t, drive, relative, n) && (p in t ==> IsDirectory(t, p))
          ==> ParentsUntil(t, drive, relative, n + 1))
      && (ParentsOk(t, drive, relative) && p in t ==> IsDirectory(t, p))
  {
  }

  ghost predicate MappingOk(t: Tree, drive: Path, base: Path, m: Mapping) {
    SourceOk(t, base, m.source) && TargetOk(t, drive, m.target) && ParentsOk(t, drive, m.target)
  }

  ghost predicate AllOk(t: Tree, drive: Path, base: Path, mappings: seq<Mapping>) {
    forall i :: 0 <= i < |mappings| ==> MappingOk(t, drive, base, mappings[i])
  }

  // No target lies at or below another.
  ghost predicate TargetsApart(mappings: seq<Mapping>) {
    forall i, j :: 0 <= i < |mappings| && 0 <= j < |mappings| && i != j ==> !(mappings[i].target <= mappings[j].target)
  }

  ghost predicate Admissible(t: Tree, drive: Path, base: Path, mappings: seq<Mapping>) {
    && IsDirectory(t, drive) && TargetsApart(mappings)
    && AllOk(t, drive, base, mappings)
  }

  function Exposed(drive: Path, base: Path, mappings: seq<Mapping>): (files: seq<ExposedFile>)
    ensures |files| == |mappings|
  {
    seq(|mappings|, i requires 0 <= i < |mappings| =>
          ExposedFile(base + mappings[i].source, drive + mappings[i].target))
  }

  ghost predicate ExposedIn(before: Tree, after: Tree, file: ExposedFile) {
    && IsRegular(before, file.source) && file.target !in before
    && file.target in after && after[file.target].content == before[file.source].content
  }

  // Every target holds what its source held; nothing else changed, and what is new leads
  // to a target.
  ghost predicate AllExposed(before: Tree, after: Tree, files: seq<ExposedFile>) {
    && (forall i :: 0 <= i < |files| ==> ExposedIn(before, after, files[i]))
    && (forall p :: p in before ==> p in after && after[p] == before[p])
    && (forall p :: p in after && p !in before ==> exists i :: 0 <= i < |files| && p <= files[i].target)
  }

  ghost predicate CopyMade(made: seq<Made>, now: seq<Made>, target: Path, content: Content) {
    |now| == |made| + 1 && now[..|made|] == made && now[|made|].path == target && now[|made|].node.content == content
  }

  lemma RecordFile(directories: seq<Staged>, files: seq<Staged>, made: seq<Made>, m: Made)
    requires Records(directories, files, made) && m.node.content.File?
    ensures Records(directories, files + [Staged(m.path, m.node.id)], made + [m])
  {
    var now, all := files + [Staged(m.path, m.node.id)], made + [m];
    forall i | 0 <= i < |directories|
      ensures RecordedAt(directories[i], all[i]) && all[i].node.content == Directory
    {
      assert all[i] == made[i];
    }
    forall i | 0 <= i < |now|
      ensures RecordedAt(now[i], all[|directories| + i]) && all[|directories| + i].node.content.File?
    {
      if i < |files| { assert all[|directories| + i] == made[|directories| + i]; }
    }
  }

  lemma RecordDirectory(directories: seq<Staged>, files: seq<Staged>, made: seq<Made>, m: Made)
    requires Records(directories, files, made) && files == [] && m.node.content == Directory
    ensures Records(directories + [Staged(m.path, m.node.id)], files, made + [m])
  {
    var now, all := directories + [Staged(m.path, m.node.id)], made + [m];
    forall i | 0 <= i < |now| ensures RecordedAt(now[i], all[i]) && all[i].node.content == Directory {
      if i < |directories| { assert all[i] == made[i]; }
    }
  }

  // Missing directories, each with a parent that exists or comes before it.
  ghost predicate ParentsFirst(t: Tree, required: seq<Path>) {
    forall k :: 0 <= k < |required| ==>
      && required[k] !in t && required[k] != [] && required[k] !in required[..k]
      && (IsDirectory(t, Parent(required[k])) || Parent(required[k]) in required[..k])
  }

  ghost predicate AreDirectories(t: Tree, paths: seq<Path>) { forall r :: r in paths ==> IsDirectory(t, r) }

  ghost predicate PathsIn(made: seq<Made>, paths: seq<Path>) { forall i :: 0 <= i < |made| ==> made[i].path in paths }

  lemma PathsStayIn(before: seq<Made>, made: seq<Made>, required: seq<Path>, k: nat)
    requires k < |required| && PathsIn(before, required[..k])
    requires made == before
             || (|made| == |before| + 1 && made[..|before|] == before && made[|before|].path == required[k])
    ensures PathsIn(made, required[..k + 1]) && PathsIn(made, required)
  {
    forall i | 0 <= i < |made| ensures made[i].path in required[..k + 1] {
      if i < |before| { assert made[i] == before[i]; } else { assert required[..k + 1][k] == required[k]; }
    }
  }

  lemma NoDirectories(t: Tree)
    ensures AreDirectories(t, []) && PathsIn([], [])
  {
  }

  lemma OneMoreDirectory(before: Tree, now: Tree, paths: seq<Path>, p: Path)
    requires AreDirectories(before, paths) && Keeps(before, now) && IsDirectory(now, p)
    ensures AreDirectories(now, paths + [p])
  {
  }

  lemma NextIsReady(initial: Tree, required: seq<Path>, made: seq<Made>, k: nat)
    requires ParentsFirst(initial, required) && k < |required| && Laid(initial, made)
    requires PathsIn(made, required[..k])
    requires AreDirectories(Built(initial, made), required[..k])
    ensures CanCreate(Built(initial, made), required[k])
  {
    hide Laid, Built, ParentsFirst;
    RequiredAt(initial, required, k);
    assert made[..|made|] == made;
    BuiltOnlyAdds(initial, made, |made|);
    BuiltKeeps(initial, made, |made|);
    if Parent(required[k]) in required[..k] {
      var i :| 0 <= i < k && required[..k][i] == Parent(required[k]);
      assert required[i] == Parent(required[k]);
    }
  }

  lemma RequiredAt(t: Tree, required: seq<Path>, k: nat)
    requires ParentsFirst(t, required) && k < |required|
    ensures required[k] !in t && required[k] != [] && required[k] !in required[..k]
    ensures IsDirectory(t, Parent(required[k])) || Parent(required[k]) in required[..k]
  {
  }

  lemma NoParents(t: Tree)
    ensures ParentsFirst(t, [])
  {
  }

  lemma OneMoreParent(t: Tree, required: seq<Path>, p: Path)
    requires ParentsFirst(t, required) && p !in t && p != [] && p !in required
    requires IsDirectory(t, Parent(p)) || Parent(p) in required
    ensures ParentsFirst(t, required + [p])
  {
    var all := required + [p];
    forall k | 0 <= k < |all|
      ensures all[k] !in t && all[k] != [] && all[k] !in all[..k]
      ensures IsDirectory(t, Parent(all[k])) || Parent(all[k]) in all[..k]
    {
      if k < |required| { assert all[..k] == required[..k] && all[k] == required[k]; }
      else { assert all[..k] == required; }
    }
  }

  // The directories above a target (up to length n) exist or are required, and nothing
  // else has been added.
  ghost predicate OnTheWay(t: Tree, drive: Path, relative: Path, n: nat, before: seq<Path>, required: seq<Path>) {
    && (forall m: nat :: 0 < m < n && m < |relative| ==>
          IsDirectory(t, drive + relative[..m]) || drive + relative[..m] in required)
    && (forall r :: r in required ==> r in before || Above(drive, relative, r))
  }

  lemma StartOnTheWay(t: Tree, drive: Path, relative: Path, before: seq<Path>)
    requires relative != []
    ensures OnTheWay(t, drive, relative, 1, before, before) && ParentsUntil(t, drive, relative, 1)
  {
  }

  // The directory at length n has its parent handled already.
  lemma NextOnTheWay(t: Tree, drive: Path, relative: Path, n: nat, before: seq<Path>, required: seq<Path>)
    requires OnTheWay(t, drive, relative, n, before, required) && IsDirectory(t, drive) && 0 < n < |relative|
    ensures var p := drive + relative[..n];
      && p != [] && (IsDirectory(t, Parent(p)) || Parent(p) in required)
      && (p in required || IsDirectory(t, p) ==> OnTheWay(t, drive, relative, n + 1, before, required))
      && OnTheWay(t, drive, relative, n + 1, before, required + [p])
  {
    var p := drive + relative[..n];
    assert Parent(p) == drive + relative[..n - 1];
    if n == 1 { assert drive + relative[..0] == drive; }
    assert Above(drive, relative, p);
  }

  ghost predicate Above(drive: Path, relative: Path, r: Path) {
    exists m: nat :: 0 < m < |relative| && r == drive + relative[..m]
  }

  // The required directories are the missing ones above the targets.
  ghost predicate Leads(t: Tree, drive: Path, mappings: seq<Mapping>, required: seq<Path>) {
    && (forall i, m: nat :: 0 <= i < |mappings| && 0 < m < |mappings[i].target| ==>
          IsDirectory(t, drive + mappings[i].target[..m]) || drive + mappings[i].target[..m] in required)
    && (forall r :: r in required ==> exists i :: 0 <= i < |mappings| && Above(drive, mappings[i].target, r))
  }

  lemma LeadsMore(t: Tree, drive: Path, mappings: seq<Mapping>, before: seq<Path>, required: seq<Path>, k: nat)
    requires k < |mappings| && Leads(t, drive, mappings[..k], before) && before <= required
    requires OnTheWay(t, drive, mappings[k].target, |mappings[k].target|, before, required)
    ensures Leads(t, drive, mappings[..k + 1], required)
  {
    hide Above;
    var all := mappings[..k + 1];
    assert all[k] == mappings[k];
    forall r | r in required ensures exists i :: 0 <= i < |all| && Above(drive, all[i].target, r) {
      if r in before {
        var i :| 0 <= i < k && Above(drive, mappings[..k][i].target, r);
        assert all[i] == mappings[..k][i];
      }
    }
    forall i, m: nat | 0 <= i < |all| && 0 < m < |all[i].target|
      ensures IsDirectory(t, drive + all[i].target[..m]) || drive + all[i].target[..m] in required
    {
      if i < k { assert all[i] == mappings[..k][i]; }
    }
  }

  lemma SourcesRegular(t: Tree, drive: Path, base: Path, mappings: seq<Mapping>)
    requires AllOk(t, drive, base, mappings)
    ensures var todo := Exposed(drive, base, mappings);
      forall i :: 0 <= i < |todo| ==> IsRegular(t, todo[i].source)
  {
    hide NoLinks, ParentsOk, IsRegular;
  }

  // All targets can be created, whatever order the copies come in.
  ghost predicate Ready(initial: Tree, directories: seq<Made>, todo: seq<ExposedFile>) {
    && (forall i :: 0 <= i < |todo| ==> CanCreate(Built(initial, directories), todo[i].target))
    && (forall i, j :: 0 <= i < j < |todo| ==> todo[i].target != todo[j].target)
  }

  // The first k copies have been made, after the directories.
  ghost predicate Copied(initial: Tree, directories: seq<Made>, todo: seq<ExposedFile>, made: seq<Made>, k: nat) {
    && |made| == |directories| + k && made[..|directories|] == directories && k <= |todo|
    && forall i :: 0 <= i < k ==> CopyAt(initial, todo[i], made[|directories| + i])
  }

  ghost predicate CopyAt(initial: Tree, file: ExposedFile, m: Made) {
    m.path == file.target && IsRegular(initial, file.source) && m.node.content == initial[file.source].content
  }

  lemma CopiedMore(initial: Tree, directories: seq<Made>, todo: seq<ExposedFile>, made: seq<Made>, now: seq<Made>,
                   k: nat)
    requires Copied(initial, directories, todo, made, k) && k < |todo| && IsRegular(initial, todo[k].source)
    requires CopyMade(made, now, todo[k].target, initial[todo[k].source].content)
    ensures Copied(initial, directories, todo, now, k + 1)
  {
    assert now[..|directories|] == made[..|directories|];
    forall i | 0 <= i < k + 1 ensures CopyAt(initial, todo[i], now[|directories| + i]) {
      if i < k { assert now[|directories| + i] == made[|directories| + i]; }
    }
  }

  lemma ReadyNext(initial: Tree, directories: seq<Made>, todo: seq<ExposedFile>, made: seq<Made>, k: nat)
    requires Ready(initial, directories, todo) && Copied(initial, directories, todo, made, k) && k < |todo|
    requires Laid(initial, made)
    ensures CanCreate(Built(initial, made), todo[k].target)
  {
    hide Laid;
    var p := todo[k].target;
    assert CanCreate(Built(initial, directories), p);
    GrowsOnly(initial, directories, made, |made|);
    assert made[..|made|] == made;
    forall j | |directories| <= j < |made| ensures made[j].path != p {
      assert CopyAt(initial, todo[j - |directories|], made[|directories| + (j - |directories|)]);
    }
  }

  lemma TargetsReady(initial: Tree, drive: Path, base: Path, mappings: seq<Mapping>, required: seq<Path>,
                     made: seq<Made>)
    requires TargetsApart(mappings) && Leads(initial, drive, mappings, required) && IsDirectory(initial, drive)
    requires AllOk(initial, drive, base, mappings)
    requires Laid(initial, made) && PathsIn(made, required)
    requires AreDirectories(Built(initial, made), required)
    ensures Ready(initial, made, Exposed(drive, base, mappings))
  {
    hide Laid, Built, NoLinks, SourceOk, ParentsOk;
    var todo := Exposed(drive, base, mappings);
    var now := Built(initial, made);
    assert made[..|made|] == made;
    BuiltKeeps(initial, made, |made|);
    BuiltOnlyAdds(initial, made, |made|);
    forall i | 0 <= i < |todo| ensures CanCreate(now, todo[i].target) {
      var t := mappings[i].target;
      assert MappingOk(initial, drive, base, mappings[i]);
      forall j | 0 <= j < |mappings| ensures !Above(drive, mappings[j].target, drive + t) {
        if Above(drive, mappings[j].target, drive + t) { AboveIsPrefix(drive, mappings[j].target, t); }
      }
      assert Parent(drive + t) == drive + t[..|t| - 1];
      if |t| == 1 { assert drive + t[..0] == drive; }
    }
    forall i, j | 0 <= i < j < |todo| ensures todo[i].target != todo[j].target {
      if todo[i].target == todo[j].target { SamePrefix(drive, mappings[i].target, mappings[j].target); }
    }
  }

  lemma AboveIsPrefix(drive: Path, relative: Path, t: Path)
    requires Above(drive, relative, drive + t)
    ensures t <= relative && |t| < |relative|
  {
    var m: nat :| 0 < m < |relative| && drive + t == drive + relative[..m];
    SamePrefix(drive, t, relative[..m]);
  }

  lemma SamePrefix(drive: Path, a: Path, b: Path)
    requires drive + a == drive + b
    ensures a == b
  {
    assert (drive + a)[|drive|..] == a && (drive + b)[|drive|..] == b;
  }

  lemma NothingTracked(t: Tree)
    requires WellFormed(t)
    ensures Laid(t, Everything([], None)) && t == Built(t, Everything([], None)) && Records([], [], [])
  {
    BuiltNothing(t);
  }

  lemma KeepsAll(t: Tree)
    ensures Keeps(t, t)
  {
  }

  lemma AdmissibleParts(t: Tree, drive: Path, base: Path, mappings: seq<Mapping>)
    ensures Admissible(t, drive, base, mappings) <==>
            IsDirectory(t, drive) && TargetsApart(mappings) && AllOk(t, drive, base, mappings)
  {
  }

  // What a cleanup leaves: what was there, the orphan, and what of the rest was recorded.
  lemma Leftovers(initial: Tree, made: seq<Made>, orphan: Option<Made>, before: Tree, after: Tree,
                  directories: seq<Staged>, files: seq<Staged>)
    requires Records(directories, files, made) && Between(initial, made, orphan, after)
    requires before == Built(initial, Everything(made, orphan)) && RemovesRecorded(before, after, files + directories)
    ensures Keeps(initial, after)
    ensures orphan.Some? ==>
      && orphan.value.path !in initial && orphan.value.path in after
      && forall s :: s in files + directories ==> s.path != orphan.value.path
    ensures GoneFrom(made, orphan, after, 0) ==>
      (forall p :: p in after && p !in initial ==> LeadsTo(p, orphan)) && (orphan.None? ==> after == initial)
    ensures forall p :: p in after && p !in initial ==>
      LeadsTo(p, orphan) || Staged(p, after[p].id) in files + directories
  {
    hide Built, Laid, GoneFrom;
    if GoneFrom(made, orphan, after, 0) { NothingElseLeft(initial, made, orphan, after); }
    StagedPaths(directories, files, made);
    if orphan.Some? { OrphanIsNew(initial, made, orphan); }
    forall p | p in after && p !in initial ensures LeadsTo(p, orphan) || Staged(p, after[p].id) in files + directories {
      NewIsMade(initial, made, orphan, after, p);
    }
  }

  lemma StagedPaths(directories: seq<Staged>, files: seq<Staged>, made: seq<Made>)
    requires Records(directories, files, made)
    ensures forall i :: 0 <= i < |made| ==> Staged(made[i].path, made[i].node.id) in files + directories
    ensures forall s :: s in files + directories ==> exists i :: 0 <= i < |made| && made[i].path == s.path
  {
    forall i | 0 <= i < |made| ensures Staged(made[i].path, made[i].node.id) in files + directories {
      if i < |directories| { assert directories[i] in files + directories; }
      else {
        var k := i - |directories|;
        assert files[k] in files + directories && RecordedAt(files[k], made[|directories| + k]);
      }
    }
    forall s | s in files + directories ensures exists i :: 0 <= i < |made| && made[i].path == s.path {
      var k :| 0 <= k < |files + directories| && (files + directories)[k] == s;
      if k < |files| { assert RecordedAt(files[k], made[|directories| + k]); }
      else { assert RecordedAt(directories[k - |files|], made[k - |files|]); }
    }
  }

  // After all copies: the exposure is complete, and the request was admissible.
  lemma WholeExposure(initial: Tree, drive: Path, base: Path, mappings: seq<Mapping>, required: seq<Path>,
                      directories: seq<Made>, made: seq<Made>)
    requires IsDirectory(initial, drive) && Leads(initial, drive, mappings, required)
    requires AllOk(initial, drive, base, mappings)
    requires PathsIn(directories, required)
    requires AreDirectories(Built(initial, directories), required)
    requires Laid(initial, made) && Copied(initial, directories, Exposed(drive, base, mappings), made, |mappings|)
    ensures Admissible(initial, drive, base, mappings)
    ensures AllExposed(initial, Built(initial, made), Exposed(drive, base, mappings))
  {
    hide Laid, Built, MappingOk, Exposed, Leads;
    CopiesMeanApart(initial, drive, base, mappings, required, directories, made);
    EverythingExposed(initial, drive, base, mappings, required, directories, made);
  }

  lemma CopiesMeanApart(initial: Tree, drive: Path, base: Path, mappings: seq<Mapping>, required: seq<Path>,
                        directories: seq<Made>, made: seq<Made>)
    requires Leads(initial, drive, mappings, required)
    requires AllOk(initial, drive, base, mappings)
    requires AreDirectories(Built(initial, directories), required)
    requires Laid(initial, made) && Copied(initial, directories, Exposed(drive, base, mappings), made, |mappings|)
    ensures TargetsApart(mappings)
  {
    hide Built, Laid, NoLinks, SourceOk, ParentsOk, Leads, MappingOk;
    forall i, j | 0 <= i < |mappings| && 0 <= j < |mappings| && i != j
      ensures !(mappings[i].target <= mappings[j].target)
    {
      TargetsDiffer(initial, drive, base, mappings, directories, made, i, j);
      NotAbove(initial, drive, base, mappings, required, directories, made, i, j);
    }
  }

  lemma TargetsDiffer(initial: Tree, drive: Path, base: Path, mappings: seq<Mapping>, directories: seq<Made>,
                      made: seq<Made>, i: nat, j: nat)
    requires i < |mappings| && j < |mappings| && i != j
    requires Laid(initial, made) && Copied(initial, directories, Exposed(drive, base, mappings), made, |mappings|)
    ensures mappings[i].target != mappings[j].target
  {
    hide Built, WellFormed, IsDirectory;
    var d := |directories|;
    var a, b := d + (if i < j then i else j), d + (if i < j then j else i);
    assert CopyAt(initial, Exposed(drive, base, mappings)[i], made[d + i]);
    assert CopyAt(initial, Exposed(drive, base, mappings)[j], made[d + j]);
    assert AddsAt(initial, made, b);
    BuiltHas(initial, made, a, b);
  }

  // A target above another would have been created as a directory before.
  lemma NotAbove(initial: Tree, drive: Path, base: Path, mappings: seq<Mapping>, required: seq<Path>,
                 directories: seq<Made>, made: seq<Made>, i: nat, j: nat)
    requires Leads(initial, drive, mappings, required) && AllOk(initial, drive, base, mappings)
    requires AreDirectories(Built(initial, directories), required)
    requires Laid(initial, made) && Copied(initial, directories, Exposed(drive, base, mappings), made, |mappings|)
    requires i < |mappings| && j < |mappings|
    ensures !(mappings[i].target < mappings[j].target)
  {
    hide Built, WellFormed, NoLinks, SourceOk, ParentsOk, Leads;
    var s, t, d := mappings[i].target, mappings[j].target, |directories|;
    assert CopyAt(initial, Exposed(drive, base, mappings)[i], made[d + i]);
    assert AddsAt(initial, made, d + i);
    GrowsOnly(initial, directories, made, d + i);
    assert MappingOk(initial, drive, base, mappings[i]);
    assert drive + s !in required;
    if s < t { NeededAbove(initial, drive, mappings, required, j, s); }
  }

  lemma NeededAbove(t: Tree, drive: Path, mappings: seq<Mapping>, required: seq<Path>, j: nat, s: Path)
    requires Leads(t, drive, mappings, required) && j < |mappings| && s != [] && s < mappings[j].target
    ensures drive + s in required || IsDirectory(t, drive + s)
  {
    hide Above;
    assert s == mappings[j].target[..|s|];
  }

  lemma EverythingExposed(initial: Tree, drive: Path, base: Path, mappings: seq<Mapping>, required: seq<Path>,
                          directories: seq<Made>, made: seq<Made>)
    requires Leads(initial, drive, mappings, required)
    requires PathsIn(directories, required)
    requires Laid(initial, made) && Copied(initial, directories, Exposed(drive, base, mappings), made, |mappings|)
    ensures AllExposed(initial, Built(initial, made), Exposed(drive, base, mappings))
  {
    hide Built, WellFormed, Laid, Leads, Copied, ExposedIn;
    var files := Exposed(drive, base, mappings);
    assert made[..|made|] == made;
    BuiltKeeps(initial, made, |made|);
    FilesExposed(initial, files, directories, made);
    NewLeadsToTarget(initial, drive, base, mappings, required, directories, made);
  }

  lemma FilesExposed(initial: Tree, files: seq<ExposedFile>, directories: seq<Made>, made: seq<Made>)
    requires Laid(initial, made) && Copied(initial, directories, files, made, |files|)
    ensures forall i :: 0 <= i < |files| ==> ExposedIn(initial, Built(initial, made), files[i])
  {
    hide Built, WellFormed, Laid, IsDirectory;
    assert made[..|made|] == made;
    forall i | 0 <= i < |files| ensures ExposedIn(initial, Built(initial, made), files[i]) {
      assert CopyAt(initial, files[i], made[|directories| + i]);
      BuiltHas(initial, made, |directories| + i, |made|);
      NewIsNew(initial, made, |directories| + i);
    }
  }

  lemma NewIsNew(initial: Tree, made: seq<Made>, i: nat)
    requires Laid(initial, made) && i < |made|
    ensures made[i].path !in initial
  {
    hide Built, WellFormed;
    BuiltKeeps(initial, made, i);
    assert AddsAt(initial, made, i);
  }

  lemma NewLeadsToTarget(initial: Tree, drive: Path, base: Path, mappings: seq<Mapping>, required: seq<Path>,
                         directories: seq<Made>, made: seq<Made>)
    requires Leads(initial, drive, mappings, required)
    requires PathsIn(directories, required)
    requires Copied(initial, directories, Exposed(drive, base, mappings), made, |mappings|)
    ensures var files := Exposed(drive, base, mappings);
      forall p :: p in Built(initial, made) && p !in initial ==> exists i :: 0 <= i < |files| && p <= files[i].target
  {
    hide Built, IsDirectory, IsRegular;
    var files := Exposed(drive, base, mappings);
    assert made[..|made|] == made;
    BuiltOnlyAdds(initial, made, |made|);
    forall p | p in Built(initial, made) && p !in initial ensures exists i :: 0 <= i < |files| && p <= files[i].target {
      var k :| 0 <= k < |made| && made[k].path == p;
      if k < |directories| {
        assert made[..|directories|][k] == made[k];
        var i :| 0 <= i < |mappings| && Above(drive, mappings[i].target, p);
        AboveLeads(drive, mappings[i].target, p);
        assert p <= files[i].target;
      } else {
        assert CopyAt(initial, files[k - |directories|], made[|directories| + (k - |directories|)]);
      }
    }
  }

  lemma AboveLeads(drive: Path, relative: Path, p: Path)
    requires Above(drive, relative, p)
    ensures p <= drive + relative
  {
  }

  // ---------------------------------------------------------------- a request that leaves an orphan

  function SampleTree(): Tree {
    map[[] := Node(0, Directory), ["c"] := Node(1, Directory), ["s"] := Node(2, Directory),
        ["s", "f"] := Node(3, File([]))]
  }

  lemma SampleTreeIsFine()
    ensures WellFormed(SampleTree()) && Identified(SampleTree(), 4)
  {
    var t := SampleTree();
    assert forall p :: p in t ==> p == [] || p == ["c"] || p == ["s"] || p == ["s", "f"];
    assert Parent(["c"]) == [] && Parent(["s"]) == [] && Parent(["s", "f"]) == ["s"];
  }

  lemma SampleIsAdmissible()
    ensures Admissible(SampleTree(), ["c"], ["s"], [Mapping(["f"], ["d", "t"])])
  {
    var t, m := SampleTree(), Mapping(["f"], ["d", "t"]);
    assert ["s"] + ["f"] == ["s", "f"] && ["c"] + ["d", "t"] == ["c", "d", "t"];
    assert forall n: nat :: 0 < n <= 1 ==> ["f"][..n] == ["f"];
    assert ["c"] + ["d", "t"][..1] == ["c", "d"] && ["d", "t"][..2] == ["d", "t"];
    assert MappingOk(t, ["c"], ["s"], m);
  }

  // The exception is real: a request that could be applied, on a disk where nothing fails but
  // asking for the status of a new directory, is rejected and leaves the directory behind.
  method OrphanRemains() returns (before: Tree, after: Tree, status: ExposureStatus)
    ensures Admissible(before, ["c"], ["s"], [Mapping(["f"], ["d", "t"])])
    ensures status == Rejected && after != before && Keeps(before, after)
  {
    hide Admissible, AllExposed, Laid, Built, WellFormed, Identified, SampleTree;
    SampleTreeIsFine();
    SampleIsAdmissible();
    before := SampleTree();
    var disk := new Disk(before, 4, {Work, FileProbe, Undo}, {DirectoryProbe});
    var exposure := new FileExposure();
    ghost var made, orphan := exposure.Materialize(disk, ["c"], ["s"], [Mapping(["f"], ["d", "t"])]);
    if exposure.status == Applied {
      DirectoryWasMade(before, made, disk.tree, exposure.stagedDirectories, exposure.stagedFiles, exposure.files);
    }
    after, status := disk.tree, exposure.status;
  }

  // A target in a directory that was not there takes a recorded directory.
  lemma DirectoryWasMade(before: Tree, made: seq<Made>, after: Tree, directories: seq<Staged>, staged: seq<Staged>,
                         files: seq<ExposedFile>)
    requires before == SampleTree() && Laid(before, made) && after == Built(before, made) && WellFormed(after)
    requires Records(directories, staged, made) && AllExposed(before, after, files)
    requires files == Exposed(["c"], ["s"], [Mapping(["f"], ["d", "t"])])
    ensures directories != []
  {
    hide Laid, Built, WellFormed, SampleTree, Records, AllExposed;
    var target, parent := ["c", "d", "t"], ["c", "d"];
    assert files[0].target == target by { assert ["c"] + ["d", "t"] == target; }
    TargetIsThere(before, after, files);
    assert Parent(target) == parent;
    assert parent !in before by { NotInSample(); }
    var i := NewParentIsMade(before, made, after, target);
    FilesAreFiles(directories, staged, made);
  }

  lemma TargetIsThere(before: Tree, after: Tree, files: seq<ExposedFile>)
    requires AllExposed(before, after, files) && files != []
    ensures files[0].target in after
  {
    assert ExposedIn(before, after, files[0]);
  }

  lemma NotInSample()
    ensures ["c", "d"] !in SampleTree()
  {
  }

  lemma NewParentIsMade(before: Tree, made: seq<Made>, after: Tree, p: Path) returns (i: nat)
    requires Laid(before, made) && after == Built(before, made) && WellFormed(after)
    requires p in after && p != [] && Parent(p) !in before
    ensures i < |made| && made[i].node.content == Directory
  {
    hide Laid, Built;
    assert IsDirectory(after, Parent(p));
    assert made[..|made|] == made;
    BuiltOnlyAdds(before, made, |made|);
    i :| 0 <= i < |made| && made[i].path == Parent(p);
    BuiltHas(before, made, i, |made|);
  }

  lemma FilesAreFiles(directories: seq<Staged>, staged: seq<Staged>, made: seq<Made>)
    requires Records(directories, staged, made)
    ensures directories == [] ==> forall i :: 0 <= i < |made| ==> made[i].node.content.File?
  {
    if directories == [] {
      forall i | 0 <= i < |made| ensures made[i].node.content.File? { assert RecordedAt(staged[i], made[0 + i]); }
    }
  }
}
