// The guest module graph (src/loader/module_graph.cpp): loading DLLs depth first while
// resolving their imports, counting references, attaching and detaching in dependency order.
module ModuleGraph {
  import opened Ascii
  import opened ImageMapper
  import opened GraphState
  import opened GraphSteps
  import opened DetachOrder
  import opened GraphLinks
  import opened ModuleNames
  import F = Forwarder

  datatype DllMapping = DllMapping(name: string, source: string)

  // What reading and parsing a file gives: nothing usable, or an x64 DLL.
  datatype File = Unusable | Dll(info: DllInfo)

  // A file of the profile; symbolic links are refused.
  datatype ProfileFile = ProfileFile(symlink: bool, file: File)

  // The program itself: what it imports and exports, and where it is mapped.
  datatype Program = Program(imports: seq<Import>, exports: seq<Export>, image: Image)

  datatype Lookup = Lookup(found: bool, address: nat, index: Option<nat>)

  // Who a library handle refers to.
  datatype Holder = Nobody | Guest(index: nat) | Builtin(index: nat)
  {
    function GuestIndex(): Option<nat> { if Guest? then Some(index) else None }
    function BuiltinIndex(): Option<nat> { if Builtin? then Some(index) else None }
  }

  const BUILTIN_HANDLE_BASE: nat := 0x0000_2000_0000_0000

  function BuiltinHandle(n: nat): nat { BUILTIN_HANDLE_BASE + n * 0x1000 }

  datatype Operation =
    | Resolve(program: Program, directory: string)
    | ProcessAttaches
    | LoadsLibrary(name: string)
    | FreesLibrary(handle: nat)
    | GetsHandle(name: string)
    | GetsAddress(handle: nat, target: Target)
    | ProcessDetaches
    | Resets

  const NOT_FOUND := Lookup(false, 0, None)

  // The first built-in module that exports the target answers, forwarder or not.
  function GlobalLookup(builtins: seq<F.Module>, target: Target): Lookup {
    if builtins == [] then NOT_FOUND
    else
      match F.FindIn(builtins[0].exports, BuiltinQuery("", target))
      case Some(e) => Lookup(true, e.address, None)
      case None => GlobalLookup(builtins[1..], target)
  }

  class GuestModuleGraph {
    const profile: seq<DllMapping>
    const profileFiles: map<string, ProfileFile>
    // Files of drive_c, by directory and lower-case name.
    const drive: map<(string, string), File>
    const systemDirectories: seq<string>
    const profileDirectory: string
    const builtins: seq<F.Module>
    const page: nat
    // Set when nothing outside the graph gets in its way: mappings are granted, import slots
    // can be written and the callbacks of modules accept.
    const obliging: bool

    var modules: Table
    var rejected: seq<string>
    var builtinModules: seq<string>
    var builtinRefcounts: seq<nat>
    // The main image, and its directory.
    var main: Option<Program>
    var mainDirectory: string
    // Set once process_detach has dropped modules that may still be referenced.
    ghost var tornDown: bool
    // Attach and detach notifications, as they are traced.
    var events: seq<Event>
    ghost var rank: seq<nat>
    ghost var clock: nat

    function Listed(): seq<string> { seq(|profile|, k requires 0 <= k < |profile| => profile[k].name) }

    // What holds whenever no release is outstanding.
    ghost predicate Consistent()
      reads this`modules, this`rejected, this`rank, this`clock
    {
      && page > 0
      && Sound(modules, rank, clock, {}, multiset{}) && AttachedClosed(modules) && AttachedCounted(modules, -1)
      && Resources(modules, rejected, Listed(), page)
    }

    // The invariant between calls.
    ghost predicate Valid()
      reads this`modules, this`rejected, this`rank, this`clock, this`tornDown, this`builtinModules,
            this`builtinRefcounts
    {
      Consistent() && Settled(modules) && Held(modules, tornDown) && |builtinRefcounts| == |builtinModules|
    }

    constructor (profile: seq<DllMapping>, profileFiles: map<string, ProfileFile>, profileDirectory: string,
                 drive: map<(string, string), File>, systemDirectories: seq<string>, builtins: seq<F.Module>, page: nat,
                 obliging: bool)
      requires PageMultiple(page, MAX_MAPPED_BYTES)
      ensures Valid() && modules == [] && rejected == [] && builtinModules == [] && main == None && events == []
      ensures this.profile == profile && this.profileFiles == profileFiles && this.profileDirectory == profileDirectory
      ensures this.drive == drive && this.systemDirectories == systemDirectories && this.builtins == builtins
      ensures this.page == page && this.obliging == obliging && !tornDown
    {
      this.profile, this.profileFiles, this.profileDirectory := profile, profileFiles, profileDirectory;
      this.drive, this.systemDirectories, this.builtins, this.page := drive, systemDirectories, builtins, page;
      this.obliging := obliging;
      modules, rejected, builtinModules, builtinRefcounts := [], [], [], [];
      main, mainDirectory, events := None, [], [];
      rank, clock, tornDown := [], 0, false;
    }

    // ------------------------------------------------------------ detaching

    // release_dependency: one of the outstanding releases, that of d, is made; an attached
    // module nobody refers to any more goes.
    method ReleaseDependency(d: nat, ghost leaving: set<nat>, ghost due: multiset<nat>) returns (ghost log: seq<nat>)
      requires Sound(modules, rank, clock, leaving, due + multiset{d}) && AttachedCounted(modules, -1)
      requires d < |modules| && modules[d].state != Resolving
      modifies this`modules, this`events
      ensures Sound(modules, rank, clock, leaving, due) && AttachedCounted(modules, -1)
      ensures old(AttachedClosed(modules)) ==> AttachedClosed(modules)
      ensures Rewinds(old(modules), modules) && OnlyDetaches(old(modules), modules)
      ensures events == old(events) + DetachEvents(log) && Detaches(old(modules), modules, log, 0, multiset{d})
      ensures old(modules[d].Refs()) > 1 || old(modules[d].state) != Attached ==>
                modules == old(modules)[d := old(modules[d]).(staticRefs := modules[d].staticRefs)]
                && modules[d].staticRefs + 1 == old(modules[d].staticRefs) && events == old(events)
      decreases Level(rank, d), 2
    {
      hide Sound, AttachedClosed, Dependents, Detaches;
      ReleaseStep(modules, rank, clock, leaving, due, d);
      DetachesReleased(modules, d);
      log := [];
      modules := modules[d := modules[d].(staticRefs := modules[d].staticRefs - 1)];
      if modules[d].staticRefs == 0 && modules[d].dynamicRefs == 0 && modules[d].state == Attached {
        NoRefsNoDependents(modules, rank, clock, leaving, due, d);
        ghost var released := modules;
        log := DetachModule(d, leaving, due);
        DetachesMore(old(modules), released, modules, [], log, 0, multiset{d}, multiset{});
        assert [] + log == log && multiset{d} + multiset{} == multiset{d};
      }
    }

    // detach_module: the module is told, unmapped, and then gives up its own references.
    method DetachModule(index: nat, ghost leaving: set<nat>, ghost due: multiset<nat>) returns (ghost log: seq<nat>)
      requires Sound(modules, rank, clock, leaving, due) && AttachedCounted(modules, index)
      requires index < |modules|
      modifies this`modules, this`events
      ensures Sound(modules, rank, clock, leaving, due) && AttachedCounted(modules, -1)
      ensures OnlyDetaches(old(modules), modules)
      ensures old(modules[index].Refs()) == 0 ==> Rewinds(old(modules), modules)
      ensures old(AttachedClosed(modules)) && Dependents(old(modules), leaving, index) == {} ==>
                AttachedClosed(modules)
      ensures old(modules[index].state) != Attached ==> modules == old(modules) && events == old(events)
      ensures events == old(events) + DetachEvents(log)
      ensures old(modules[index].state) == Attached ==>
                DetachedOne(old(modules), modules, index) && log != [] && log[0] == index
                && Detaches(old(modules), modules, log, 1, multiset{})
      ensures old(modules[index].state) != Attached || Dependents(old(modules), leaving, index) == {} ==>
                Detaches(old(modules), modules, log, 0, multiset{})
      ensures old(modules[index].state) != Attached ==> log == []
      decreases Level(rank, index), 1
    {
      hide Sound, AttachedClosed, Dependents, Detaches;
      log := [];
      DetachesNothing(modules);
      if modules[index].state != Attached { return; }
      SoundDistinct(modules, rank, clock, leaving, due, index);
      DetachStep(modules, rank, clock, leaving, due, index);
      SoundRanks(modules, rank, clock, leaving, due);
      if AttachedClosed(modules) && Dependents(modules, leaving, index) == {} {
        SoundLeaving(modules, rank, clock, leaving, due);
        DetachKeepsClosed(modules, leaving, index);
      }
      if Dependents(modules, leaving, index) == {} {
        SoundLeaving(modules, rank, clock, leaving, due);
        NoOwnerLeft(modules, leaving, index);
      }
      var dependencies := modules[index].dependencies;
      assert forall k :: 0 <= k < |dependencies| ==> dependencies[k] in modules[index].dependencies;
      modules := modules[index := Dropped(modules[index])];
      events := events + [DetachEvent(index)];
      ghost var dropped := modules;
      ghost var rest := ReleaseAll(dependencies, Level(rank, index), leaving, due);
      DroppedThenRewound(old(modules), dropped, modules, index);
      DetachesRoot(old(modules), modules, rest, index);
      DetachEventsAppend([index], rest);
      log := [index] + rest;
    }

    // The loop shared by detach_module and reject_loaded_module.
    method ReleaseAll(dependencies: seq<nat>, ghost bound: nat, ghost leaving: set<nat>, ghost due: multiset<nat>)
      returns (ghost log: seq<nat>)
      requires Sound(modules, rank, clock, leaving, due + multiset(dependencies)) && AttachedCounted(modules, -1)
      requires forall k :: 0 <= k < |dependencies| ==> Releasable(modules, rank, bound, dependencies[k])
      modifies this`modules, this`events
      ensures Sound(modules, rank, clock, leaving, due) && AttachedCounted(modules, -1)
      ensures old(AttachedClosed(modules)) ==> AttachedClosed(modules)
      ensures Rewinds(old(modules), modules) && OnlyDetaches(old(modules), modules)
      ensures events == old(events) + DetachEvents(log)
      ensures Detaches(old(modules), modules, log, 0, multiset(dependencies))
      decreases bound, 0
    {
      hide Sound, AttachedClosed, AttachedCounted, Dependents, Detaches, Rewinds, OnlyDetaches;
      assert dependencies[0..] == dependencies;
      DetachesOnlyItself(modules);
      log := [];
      DetachesNothing(modules);
      for k := 0 to |dependencies|
        invariant Sound(modules, rank, clock, leaving, due + multiset(dependencies[k..]))
        invariant AttachedCounted(modules, -1)
        invariant Rewinds(old(modules), modules) && OnlyDetaches(old(modules), modules)
        invariant events == old(events) + DetachEvents(log)
        invariant Detaches(old(modules), modules, log, 0, multiset(dependencies[..k]))
        invariant old(AttachedClosed(modules)) ==> AttachedClosed(modules)
      {
        assert dependencies[k..] == [dependencies[k]] + dependencies[k + 1..];
        ghost var rest := due + multiset(dependencies[k + 1..]);
        assert due + multiset(dependencies[k..]) == rest + multiset{dependencies[k]};
        ghost var before := modules;
        StillReleasable(old(modules), before, rank, bound, dependencies[k]);
        ghost var more := ReleaseDependency(dependencies[k], leaving, rest);
        DetachingComposes(old(modules), before, modules);
        DetachesMore(old(modules), before, modules, log, more, 0, multiset(dependencies[..k]),
                     multiset{dependencies[k]});
        DetachEventsAppend(log, more);
        log := log + more;
        assert dependencies[..k + 1] == dependencies[..k] + [dependencies[k]];
      }
      assert dependencies[..|dependencies|] == dependencies;
      assert due + multiset(dependencies[|dependencies|..]) == due;
    }

    // ------------------------------------------------------------ attaching

    // reject_loaded_module: a module whose attachment failed lets go of its dependencies.
    method RejectLoadedModule(index: nat)
      requires Sound(modules, rank, clock, {}, multiset{}) && AttachedClosed(modules) && AttachedCounted(modules, -1)
      requires index < |modules| && modules[index].state == Attaching
      modifies this`modules, this`events
      ensures Sound(modules, rank, clock, {}, multiset{}) && AttachedClosed(modules) && AttachedCounted(modules, -1)
      ensures RejectedOne(old(modules), modules, index)
      ensures old(events) <= events
    {
      hide Sound, AttachedClosed, Dependents;
      SoundRanks(modules, rank, clock, {}, multiset{});
      StartLeaving(modules, rank, clock, {}, multiset{}, index);
      var dependencies := modules[index].dependencies;
      assert {} + {index} == {index};
      assert forall k :: 0 <= k < |dependencies| ==> dependencies[k] in modules[index].dependencies;
      ghost var log := ReleaseAll(dependencies, Level(rank, index), {index}, multiset{});
      RejectStep(modules, rank, clock, {}, multiset{}, index);
      RejectKeepsClosed(modules, index);
      modules := modules[index := Refused(modules[index])];
    }

    // attach_module: dependencies first, then the module's own callbacks, whose verdict is
    // not part of this model. With callbacks that do not call back into the graph, the test
    // for Attaching never succeeds: everything being attached ranks above index.
    method AttachModule(index: nat) returns (ok: bool, ghost log: seq<nat>)
      requires Sound(modules, rank, clock, {}, multiset{}) && AttachedClosed(modules) && AttachedCounted(modules, -1)
      requires index < |modules| && modules[index].state != Resolving && modules[index].Refs() > 0
      requires forall i :: 0 <= i < |modules| && modules[i].state == Attaching ==> Level(rank, index) < Level(rank, i)
      modifies this`modules, this`events
      ensures Sound(modules, rank, clock, {}, multiset{}) && AttachedClosed(modules) && AttachedCounted(modules, -1)
      ensures Rewinds(old(modules), modules) && old(events) <= events
      ensures ok ==> modules[index].state == Attached && AttachedBy(old(modules), modules, log)
                     && InOrder(old(modules), log) && events == old(events) + AttachEvents(log)
      ensures !ok ==> !modules[index].Live()
      ensures old(modules[index].state) == Attached ==> ok && modules == old(modules) && events == old(events)
      ensures obliging && NoneOut(old(modules)) ==> ok
      decreases Level(rank, index), 1
    {
      hide Sound, AttachedClosed, Dependents, InOrder;
      log := [];
      EmptyLog(modules);
      if modules[index].state == Attached { return true, log; }
      SoundRanks(modules, rank, clock, {}, multiset{});
      assert modules[index].state != Attaching;
      if modules[index].state == Attaching || modules[index].state != Ready { return false, log; }
      StateStep(modules, rank, clock, {}, multiset{}, index, Attaching);
      UnattachedKeepsClosed(modules, index, Attaching);
      ghost var before := modules;
      modules := modules[index := modules[index].(state := Attaching)];
      ghost var start := modules;
      assert NoneOut(before) ==> NoneOut(start);
      ok, log := AttachDependencies(index);
      if !ok {
        RejectedOverall(before, modules, index);
        return false, log;
      }
      var accepted: bool := *;
      if !accepted && !obliging {
        ghost var attached := modules;
        RejectLoadedModule(index);
        AttachedThenRewound(start, attached, modules, log, index);
        RejectedOverall(before, modules, index);
        return false, log;
      }
      StateStep(modules, rank, clock, {}, multiset{}, index, Attached);
      AttachKeepsClosed(modules, index);
      modules := modules[index := modules[index].(state := Attached)];
      events := events + [AttachEvent(index)];
      FinishLog(before, start, modules, log, index);
      AttachEventsAppend(log, [index]);
      log := log + [index];
      return true, log;
    }

    // The dependency loop of attach_module. When one cannot be attached the owner is out.
    method AttachDependencies(index: nat) returns (ok: bool, ghost log: seq<nat>)
      requires Sound(modules, rank, clock, {}, multiset{}) && AttachedClosed(modules) && AttachedCounted(modules, -1)
      requires index < |modules| && modules[index].state == Attaching
      requires forall i :: 0 <= i < |modules| && modules[i].state == Attaching ==> Level(rank, index) <= Level(rank, i)
      modifies this`modules, this`events
      ensures Sound(modules, rank, clock, {}, multiset{}) && AttachedClosed(modules) && AttachedCounted(modules, -1)
      ensures old(events) <= events && |modules| == |old(modules)|
      ensures ok ==> AttachedBy(old(modules), modules, log) && InOrder(old(modules), log)
                     && events == old(events) + AttachEvents(log) && index !in log
                     && forall k :: 0 <= k < |old(modules)[index].dependencies| ==>
                          AttachedAt(modules, old(modules)[index].dependencies[k])
      ensures !ok ==> RejectedOne(old(modules), modules, index)
      ensures obliging && NoneOut(old(modules)) ==> ok
      decreases Level(rank, index), 0, 1
    {
      hide Sound, AttachedClosed, Dependents, InOrder, NoneOut, Distinct;
      ghost var start := modules;
      log := [];
      var dependencies := modules[index].dependencies;
      EmptyLog(start);
      for k := 0 to |dependencies|
        invariant Sound(modules, rank, clock, {}, multiset{}) && AttachedClosed(modules) && AttachedCounted(modules, -1)
        invariant InOrder(start, log) && AttachedBy(start, modules, log) && events == old(events) + AttachEvents(log)
        invariant forall j :: 0 <= j < k ==> AttachedAt(modules, dependencies[j])
      {
        ghost var more;
        ok, more := AttachDependency(index, k, start, log);
        if !ok { return; }
        AttachEventsAppend(log, more);
        log := log + more;
      }
      LogIsReady(start, log);
      return true, log;
    }

    // One turn of the loop.
    method AttachDependency(index: nat, k: nat, ghost start: Table, ghost log: seq<nat>)
      returns (ok: bool, ghost more: seq<nat>)
      requires Sound(modules, rank, clock, {}, multiset{}) && AttachedClosed(modules) && AttachedCounted(modules, -1)
      requires index < |start| && start[index].state == Attaching && k < |start[index].dependencies|
      requires Sound(start, rank, clock, {}, multiset{}) && InOrder(start, log) && AttachedBy(start, modules, log)
      requires forall i :: 0 <= i < |start| && start[i].state == Attaching ==> Level(rank, index) <= Level(rank, i)
      modifies this`modules, this`events
      ensures Sound(modules, rank, clock, {}, multiset{}) && AttachedClosed(modules) && AttachedCounted(modules, -1)
      ensures old(events) <= events && |modules| == |start|
      ensures ok ==> AttachedBy(old(modules), modules, more) && AttachedAt(modules, start[index].dependencies[k])
                     && InOrder(start, log + more) && AttachedBy(start, modules, log + more)
                     && events == old(events) + AttachEvents(more)
      ensures !ok ==> RejectedOne(start, modules, index)
      ensures obliging && NoneOut(start) ==> ok
      decreases Level(rank, index), 0, 0
    {
      hide Sound, AttachedClosed, Dependents, InOrder, NoneOut, Distinct;
      SoundRanks(start, rank, clock, {}, multiset{});
      var d := modules[index].dependencies[k];
      assert d in start[index].dependencies;
      LogIsReady(start, log);
      assert modules[index] == start[index];
      ListedIsCounted(modules, rank, clock, index, d);
      ghost var middle := modules;
      if NoneOut(start) { NoneOutAttached(start, middle, log); }
      ok, more := AttachModule(d);
      if !ok {
        ghost var failed := modules;
        RejectLoadedModule(index);
        AttachedThenRejected(start, middle, failed, modules, log, index);
        return;
      }
      LogIsReady(middle, more);
      LogsCompose(start, middle, modules, log, more);
    }

    // ------------------------------------------------------------ loading

    // While imports are being resolved nothing is being attached.
    ghost predicate Loading()
      reads this`modules, this`rejected, this`rank, this`clock
    {
      Consistent() && NoneAttaching(modules)
    }

    // find_loaded: the live module of this name, if any.
    method FindLoaded(name: string, provider: Provider) returns (found: Option<nat>)
      ensures found.Some? ==> found.value < |modules| && NamedLive(modules[found.value], name, provider)
      ensures found.None? ==> forall i :: 0 <= i < |modules| ==> !NamedLive(modules[i], name, provider)
    {
      for i := 0 to |modules|
        invariant forall j :: 0 <= j < i ==> !NamedLive(modules[j], name, provider)
      {
        if NamedLive(modules[i], name, provider) { return Some(i); }
      }
      return None;
    }

    // A module found by name can be used unless it is still resolving its own imports.
    ghost predicate Usable(found: Option<nat>)
      reads this`modules
    {
      found.Some? ==> found.value < |modules| && Finished(modules[found.value])
    }

    method EnsureProfileModule(name: string) returns (found: Option<nat>)
      requires Loading()
      modifies this`modules, this`rejected, this`rank, this`clock, this`events
      ensures Loading() && Grows(old(modules), modules) && events == old(events) && old(rejected) <= rejected
      ensures Usable(found) && (found.Some? ==> NamedLive(modules[found.value], name, Profile))
      ensures forall i :: 0 <= i < |old(modules)| && NamedFinished(old(modules)[i], name, Profile) ==>
                found == Some(i) && modules == old(modules) && rejected == old(rejected)
      ensures ProfileOutcome(old(modules), old(rejected), modules, rejected, name, found)
      decreases MAX_LOADED_MODULES - |modules|, 3
    {
      hide Sound, AttachedClosed, AttachedCounted, Resources, Links, Linkable, LoadOutcome, ProfileOutcome, Grows;
      LoadingFacts();
      GrowsItself(modules);
      NameFacts(modules, rejected, Listed(), page, name, Profile);
      if IsRejected(rejected, name) {
        ProfileKept(modules, rejected, name, None);
        return None;
      }
      var k := 0;
      while k < |profile| && !IEquals(profile[k].name, name)
        invariant k <= |profile| && forall j :: 0 <= j < k ==> !IEquals(profile[j].name, name)
      {
        k := k + 1;
      }
      ProfileEntry(k, name);
      if k == |profile| {
        ProfileKept(modules, rejected, name, None);
        return None;
      }
      assert IEquals(Listed()[k], name);
      assert ListedFirst(k, name);
      var existing := FindLoaded(name, Profile);
      if existing.Some? {
        found := if modules[existing.value].state == Resolving then None else existing;
        ProfileKept(modules, rejected, name, found);
        return;
      }
      var file := Unusable;
      if profile[k].source in profileFiles {
        if profileFiles[profile[k].source].symlink {
          ProfileKept(modules, rejected, name, None);
          return None;
        }
        file := profileFiles[profile[k].source].file;
      }
      found := LoadPeModule(name, Profile, profileDirectory, file);
      ProfileLoaded(old(modules), old(rejected), modules, rejected, name, k, file, found);
    }

    // What ensure_profile_module comes to. A module there now is the one of that name that
    // was loaded already, or a new one made from the file the profile gives for the name and
    // bound to whoever offered its imports. A module that can be loaded is.
    ghost predicate ProfileOutcome(before: Table, rejectedBefore: seq<string>, after: Table, rejectedAfter: seq<string>,
                                   name: string, found: Option<nat>)
    {
      && (found.None? ==> forall i :: 0 <= i < |after| ==> !NamedFinished(after[i], name, Profile))
      && (!IsListed(Listed(), name) ==> found.None? && after == before && rejectedAfter == rejectedBefore)
      && (found.Some? && found.value >= |before| ==>
            && found.value == |before| < |after| && Links(before, after, found.value) && IsSupplied(after, found.value)
            && ProfileDll(name, after[found.value].info))
      && (obliging ==> forall info :: Loadable(before, rejectedBefore, name, info) ==>
            NextIs(before, after, info) && rejectedAfter == rejectedBefore && found == Some(|before|))
    }

    lemma ProfileLoaded(before: Table, rejectedBefore: seq<string>, after: Table, rejectedAfter: seq<string>,
                        name: string, k: nat, file: File, found: Option<nat>)
      requires ListedFirst(k, name) && IsListed(Listed(), name)
      requires forall i :: 0 <= i < |before| ==> !NamedLive(before[i], name, Profile)
      requires file == if profile[k].source in profileFiles then profileFiles[profile[k].source].file else Unusable
      requires profile[k].source in profileFiles ==> !profileFiles[profile[k].source].symlink
      requires Grows(before, after) && (found.None? ==> |after| == |before|)
      requires found.Some? ==> found.value == |before|
      requires LoadOutcome(before, rejectedBefore, after, rejectedAfter, name, Profile, profileDirectory, file, found)
      ensures ProfileOutcome(before, rejectedBefore, after, rejectedAfter, name, found)
    {
      hide Links, Linkable, IEquals, LoadsNested, HasNowhere, NextIs, IsSupplied;
      ProfileEntry(k, name);
      if found.None? { NoneLiveStill(before, after, name, Profile); }
    }

    lemma NoneLiveStill(before: Table, after: Table, name: string, provider: Provider)
      requires forall i :: 0 <= i < |before| ==> !NamedLive(before[i], name, provider)
      requires Grows(before, after) && |after| == |before|
      ensures forall i :: 0 <= i < |after| ==> !NamedFinished(after[i], name, provider)
    {
      hide IEquals, ExcessKept;
      forall i | 0 <= i < |after| ensures !NamedFinished(after[i], name, provider) {
        assert after[i] == before[i].(staticRefs := after[i].staticRefs);
        assert !NamedLive(before[i], name, provider);
      }
    }

    // A name found already, or not to be had.
    lemma ProfileKept(ms: Table, rejectedNow: seq<string>, name: string, found: Option<nat>)
      requires forall info :: !Loadable(ms, rejectedNow, name, info)
      requires found.None? ==> forall i :: 0 <= i < |ms| ==> !NamedFinished(ms[i], name, Profile)
      requires found.Some? ==> found.value < |ms| && IsListed(Listed(), name)
      ensures ProfileOutcome(ms, rejectedNow, ms, rejectedNow, name, found)
    {
      hide Loadable, NamedFinished;
    }

    // The file the profile gives for a name: that of the first entry bearing it.
    ghost predicate ListedFirst(k: int, name: string) {
      0 <= k < |profile| && IEquals(profile[k].name, name) && forall j :: 0 <= j < k ==> !IEquals(profile[j].name, name)
    }

    ghost predicate ProfileDll(name: string, info: DllInfo) {
      exists k :: ListedFirst(k, name) && profile[k].source in profileFiles
                  && profileFiles[profile[k].source] == ProfileFile(false, Dll(info))
    }

    lemma ProfileEntry(k: nat, name: string)
      requires k <= |profile| && forall j :: 0 <= j < k ==> !IEquals(profile[j].name, name)
      requires k < |profile| ==> IEquals(profile[k].name, name)
      ensures IsListed(Listed(), name) <==> k < |profile|
      ensures forall info :: ProfileDll(name, info) <==>
                k < |profile| && profile[k].source in profileFiles
                && profileFiles[profile[k].source] == ProfileFile(false, Dll(info))
    {
      if k < |profile| { assert IEquals(Listed()[k], name) && ListedFirst(k, name); }
      else { assert forall j :: 0 <= j < |Listed()| ==> Listed()[j] == profile[j].name; }
    }

    // The profile can load a module of this name now, if nothing outside gets in the way.
    ghost predicate Loadable(ms: Table, rejected: seq<string>, name: string, info: DllInfo) {
      && ProfileDll(name, info) && !IsRejected(rejected, name) && Linkable(ms, info)
      && forall i :: 0 <= i < |ms| ==> !NamedLive(ms[i], name, Profile)
    }

    // One module has been loaded, with these contents, and only its references are new.
    ghost predicate NextIs(before: Table, after: Table, info: DllInfo) {
      && |after| == |before| + 1 && after[|before|].info == info
      && IsMapped(after[|before|].image, info.sizeOfImage) && after[|before|].staticRefs == 0
      && forall i: nat :: i < |before| ==>
           after[i].staticRefs == before[i].staticRefs + if i in after[|before|].dependencies then 1 else 0
    }

    ghost predicate IsMapped(image: Image, size: nat) { image.At? && image.base > 0 && image.size == AlignUpIf(size) }

    // Every address in the module's import table comes from where it says.
    ghost predicate IsSupplied(ms: Table, i: nat)
      requires i < |ms|
    {
      AllSupplied(ms, builtins, ms[i].info.imports, ms[i].bound)
    }

    ghost function AlignUpIf(size: nat): nat { if page > 0 then AlignUp(size, page) else 0 }

    function Candidates(directory: string): seq<string> {
      (if directory == [] then [] else [directory]) + systemDirectories
    }

    ghost predicate OnDrive(name: string, directory: string) {
      exists k :: 0 <= k < |Candidates(directory)| && (Candidates(directory)[k], Lower(name)) in drive
    }

    // The first of the directories searched that holds a file of this name.
    ghost predicate FoundFirst(name: string, directory: string, k: int) {
      && 0 <= k < |Candidates(directory)| && (Candidates(directory)[k], Lower(name)) in drive
      && forall j :: 0 <= j < k ==> (Candidates(directory)[j], Lower(name)) !in drive
    }

    // The file of drive_c that wins, and where it lies.
    ghost predicate DriveDll(name: string, directory: string, where: string, info: DllInfo) {
      exists k :: FoundFirst(name, directory, k) && Candidates(directory)[k] == where
                  && drive[(where, Lower(name))] == Dll(info)
    }

    // drive_c can supply a module of this name now, if nothing outside gets in the way.
    ghost predicate DriveLoadable(ms: Table, name: string, directory: string, info: DllInfo) {
      && (exists where :: DriveDll(name, directory, where, info)) && Linkable(ms, info)
      && forall i :: 0 <= i < |ms| ==> !NamedLive(ms[i], name, DriveC)
    }

    // ensure_drive_module: the first of the requester's and the system directories that holds
    // such a file decides. There is none when there is no such file, or when it is being
    // loaded or cannot be.
    method EnsureDriveModule(name: string, directory: string) returns (found: Option<nat>)
      requires Loading()
      modifies this`modules, this`rejected, this`rank, this`clock, this`events
      ensures Loading() && Grows(old(modules), modules) && events == old(events) && old(rejected) <= rejected
      ensures Usable(found) && (found.Some? ==> NamedLive(modules[found.value], name, DriveC))
      ensures DriveOutcome(old(modules), old(rejected), modules, rejected, name, directory, found)
      decreases MAX_LOADED_MODULES - |modules|, 3
    {
      hide Sound, AttachedClosed, AttachedCounted, Resources, Links, Linkable, LoadOutcome, DriveOutcome, Grows;
      LoadingFacts();
      GrowsItself(modules);
      NameFacts(modules, rejected, Listed(), page, name, DriveC);
      var candidates := Candidates(directory);
      for k := 0 to |candidates|
        invariant forall j :: 0 <= j < k ==> (candidates[j], Lower(name)) !in drive
        invariant modules == old(modules) && rejected == old(rejected) && events == old(events) && Loading()
      {
        if (candidates[k], Lower(name)) !in drive { continue; }
        var existing := FindLoaded(name, DriveC);
        assert FoundFirst(name, directory, k);
        if existing.Some? {
          found := if modules[existing.value].state == Resolving then None else existing;
          DriveKept(modules, rejected, name, directory, k, found);
          return;
        }
        found := LoadPeModule(name, DriveC, candidates[k], drive[(candidates[k], Lower(name))]);
        DriveLoaded(old(modules), old(rejected), modules, rejected, name, directory, k, found);
        return;
      }
      DriveMissing(modules, rejected, name, directory);
      return None;
    }

    // What ensure_drive_module comes to. A module there now is the one of that name that was
    // loaded already, or a new one made from the first file found; there is none only if no
    // directory searched holds such a file, or no module of that name has finished loading.
    ghost predicate DriveOutcome(before: Table, rejectedBefore: seq<string>, after: Table, rejectedAfter: seq<string>,
                                 name: string, directory: string, found: Option<nat>)
    {
      && (!OnDrive(name, directory) ==> found.None? && after == before)
      && (OnDrive(name, directory) && found.None? ==>
            forall i :: 0 <= i < |after| ==> !NamedFinished(after[i], name, DriveC))
      && (OnDrive(name, directory) ==> forall i :: 0 <= i < |before| && NamedFinished(before[i], name, DriveC) ==>
            found == Some(i) && after == before)
      && (found.Some? && found.value >= |before| ==>
            && found.value == |before| < |after| && Links(before, after, found.value) && IsSupplied(after, found.value)
            && DriveDll(name, directory, after[found.value].directory, after[found.value].info))
      && (obliging ==> forall info :: DriveLoadable(before, name, directory, info) ==>
            NextIs(before, after, info) && rejectedAfter == rejectedBefore && found == Some(|before|))
    }

    // A file found there, but the module is loaded already or being loaded.
    lemma DriveKept(ms: Table, rejectedNow: seq<string>, name: string, directory: string, k: nat, found: Option<nat>)
      requires FoundFirst(name, directory, k) && (found.Some? ==> found.value < |ms|)
      requires forall i :: 0 <= i < |ms| && NamedFinished(ms[i], name, DriveC) ==> found == Some(i)
      requires exists i :: 0 <= i < |ms| && NamedLive(ms[i], name, DriveC)
      ensures DriveOutcome(ms, rejectedNow, ms, rejectedNow, name, directory, found)
    {
      hide NamedFinished, NamedLive;
    }

    lemma DriveMissing(ms: Table, rejectedNow: seq<string>, name: string, directory: string)
      requires !OnDrive(name, directory)
      ensures DriveOutcome(ms, rejectedNow, ms, rejectedNow, name, directory, None)
    {
      hide Linkable;
      forall info ensures !DriveLoadable(ms, name, directory, info) { }
    }

    lemma DriveLoaded(before: Table, rejectedBefore: seq<string>, after: Table, rejectedAfter: seq<string>,
                      name: string, directory: string, k: nat, found: Option<nat>)
      requires FoundFirst(name, directory, k)
      requires forall i :: 0 <= i < |before| ==> !NamedLive(before[i], name, DriveC)
      requires Grows(before, after) && (found.None? ==> |after| == |before|)
      requires found.Some? ==> found.value == |before|
      requires var where := Candidates(directory)[k];
        LoadOutcome(before, rejectedBefore, after, rejectedAfter, name, DriveC, where, drive[(where, Lower(name))],
                    found)
      ensures DriveOutcome(before, rejectedBefore, after, rejectedAfter, name, directory, found)
    {
      hide Links, Linkable, IEquals, LoadsNested, HasNowhere, NextIs, Lower, IsSupplied;
      if found.None? { NoneLiveStill(before, after, name, DriveC); }
      forall where, info | DriveDll(name, directory, where, info)
        ensures where == Candidates(directory)[k] && drive[(where, Lower(name))] == Dll(info)
      {
        var j :| FoundFirst(name, directory, j) && Candidates(directory)[j] == where;
        assert j == k;
      }
    }

    // map_image as the graph sees it: a fresh mapping of whole pages, or a failure.
    method MapDll(info: DllInfo) returns (image: Image)
      requires page > 0
      ensures image.At? ==>
        && image.base > 0 && image.size == AlignUp(info.sizeOfImage, page)
        && image.size > 0
        && forall i :: 0 <= i < |modules| ==> Apart(modules[i].image, image)
      ensures obliging && info.sizeOfImage > 0 ==> image.At?
    {
      var base: int := *;
      var accepted: bool := *;
      if obliging { base, accepted := TopOf(modules) + 1, true; }
      if !accepted || base <= 0 || info.sizeOfImage == 0 { return Unmapped; }
      image := At(base, AlignUp(info.sizeOfImage, page));
      for i := 0 to |modules|
        invariant image == At(base, AlignUp(info.sizeOfImage, page))
        invariant forall j :: 0 <= j < i ==> Apart(modules[j].image, image)
      {
        if obliging { BelowTop(modules, i); }
        if !Apart(modules[i].image, image) { return Unmapped; }
      }
    }

    // The running total of mapped bytes, or nothing when it would pass the limit.
    method MappedTotal() returns (total: Option<nat>)
      ensures total.Some? ==> total.value == TotalMapped(modules)
      ensures total.Some? <==> TotalMapped(modules) <= MAX_MAPPED_BYTES
    {
      var sum := 0;
      for i := 0 to |modules|
        invariant sum == TotalMapped(modules[..i]) <= MAX_MAPPED_BYTES
      {
        assert modules[..i + 1][..i] == modules[..i];
        if modules[i].image == Unmapped { continue; }
        if modules[i].image.size > MAX_MAPPED_BYTES - sum {
          TotalOfPrefix(modules, i + 1);
          return None;
        }
        sum := sum + modules[i].image.size;
      }
      assert modules[..|modules|] == modules;
      return Some(sum);
    }

    // The checks load_pe_module makes before a module joins the table.
    method MapWithinLimits(info: DllInfo) returns (image: Image)
      requires page > 0
      ensures image.At? ==>
        && |modules| < MAX_LOADED_MODULES && TotalMapped(modules) <= MAX_MAPPED_BYTES
        && info.sizeOfImage <= MAX_MAPPED_BYTES - TotalMapped(modules)
        && image.base > 0 && image.size == AlignUp(info.sizeOfImage, page) && image.size > 0
        && forall i :: 0 <= i < |modules| ==> Apart(modules[i].image, image)
      ensures obliging && Fits(modules, info) ==> image.At?
    {
      if |modules| >= MAX_LOADED_MODULES { return Unmapped; }
      var total := MappedTotal();
      if total.None? { return Unmapped; }
      if info.sizeOfImage > MAX_MAPPED_BYTES - total.value { return Unmapped; }
      image := MapDll(info);
    }

    // load_pe_module. A load that fails leaves the earlier modules as they were, except
    // that some may have gained references that nothing gives back.
    method LoadPeModule(name: string, provider: Provider, directory: string, file: File) returns (found: Option<nat>)
      requires Loading()
      requires forall i :: 0 <= i < |modules| ==> !NamedLive(modules[i], name, provider)
      requires provider == Profile ==> IsListed(Listed(), name) && !IsRejected(rejected, name)
      modifies this`modules, this`rejected, this`rank, this`clock, this`events
      ensures Loading() && Grows(old(modules), modules) && events == old(events) && old(rejected) <= rejected
      ensures found.None? ==> |modules| == |old(modules)|
      ensures found.Some? ==> found.value == |old(modules)| < |modules| && modules[found.value].state == Ready
                              && NamedLive(modules[found.value], name, provider)
      ensures LoadOutcome(old(modules), old(rejected), modules, rejected, name, provider, directory, file, found)
      decreases MAX_LOADED_MODULES - |modules|, 2
    {
      hide Sound, AttachedClosed, AttachedCounted, Resources, MappingsApart, NamesKept, Bound, AllSupplied, AllResolved;
      hide ConsistentTable, Loading, IsListed, IsRejected, AllReady, Links, FromOfferers, HasNowhere, LoadsNested;
      hide Nested;
      hide LoadOutcome, Excess, LeftBehind, Grows, GrowsFor, Linkable, Fits;
      LoadingFacts();
      GrowsItself(modules);
      if file.Unusable? {
        NothingLoaded(modules, rejected, name, provider, directory, file);
        return None;
      }
      var image := MapWithinLimits(file.info);
      if image.Unmapped? {
        NothingLoaded(modules, rejected, name, provider, directory, file);
        return None;
      }
      var index := |modules|;
      var loaded := Opened(name, provider, directory, file.info, image);
      PushFacts(loaded);
      modules := modules + [loaded];
      rank := rank + [0];
      ghost var pushed := modules;
      TableFacts();
      ghost var was := rejected;
      var ok, entries := ResolveImportsForModule(Some(index), file.info.imports, directory);
      if !ok {
        ghost var full := modules;
        GrowsForLonger(pushed, full, Some(index));
        AbandonLoad(index, name, provider, old(modules), pushed);
        LoadAbandoned(old(modules), was, pushed, full, modules, rejected, name, provider, directory, file, image);
        return None;
      }
      FinishLoad(index, entries, old(modules), was, pushed, name, provider, directory, file, image);
      return Some(index);
    }

    // The end of load_pe_module: the module is ready.
    method FinishLoad(index: nat, entries: seq<ResolvedImport>, ghost before: Table, ghost rejectedBefore: seq<string>,
                      ghost pushed: Table, ghost name: string, ghost provider: Provider, ghost directory: string,
                      ghost file: File, ghost image: Image)
      requires Loading() && index == |before| && file.Dll? && IsMapped(image, file.info.sizeOfImage)
      requires pushed == before + [Opened(name, provider, directory, file.info, image)]
      requires GrowsFor(pushed, modules, Some(index)) && !HasNowhere(file.info.imports, directory)
      requires FromOfferers(pushed, file.info.imports, entries) && |entries| == |file.info.imports|
      requires AllResolved(entries)
      requires Bound(pushed, modules, Some(index), entries)
      requires AllSupplied(modules, builtins, file.info.imports, entries)
      requires obliging && AllReady(pushed, file.info.imports) ==>
                 CountsExactly(pushed, modules, Some(index)) && rejected == rejectedBefore
      modifies this`modules, this`rank, this`clock
      ensures Loading() && Grows(before, modules)
      ensures index < |modules| && modules[index].state == Ready && NamedLive(modules[index], name, provider)
      ensures LoadOutcome(before, rejectedBefore, modules, rejected, name, provider, directory, file, Some(index))
    {
      hide Sound, AttachedClosed, AttachedCounted, Resources, Bound, AllResolved, ConsistentTable, Loading, AllReady;
      hide Links;
      hide FromOfferers, HasNowhere, LoadOutcome, Excess, ExcessKept, AllSupplied, CountsExactly, SlotsBound;
      IEqualsReflexive(name);
      LoadingFacts();
      LinksFrom(before, pushed, modules, file.info.imports, entries);
      EntriesBound(pushed, modules, builtins, index, file.info.imports, entries);
      FinishFacts(index, entries);
      ghost var full := modules;
      modules := modules[index := Readied(modules[index], entries)];
      rank, clock := rank[index := clock], clock + 1;
      TableFacts();
      FinishedGrows(before, pushed, full, modules, index, entries);
      LoadFinished(before, rejectedBefore, pushed, full, entries, rejected, name, provider, directory, file, image);
    }

    function Opened(name: string, provider: Provider, directory: string, info: DllInfo, image: Image): LoadedModule {
      LoadedModule(name, provider, directory, info, image, Resolving, 0, 0, [], [])
    }

    // Nobody knows the module an import names.
    ghost predicate Nowhere(i: Import, directory: string) {
      NowhereNamed(Normalize(i.dll), i.target, directory)
    }

    ghost predicate NowhereNamed(name: string, target: Target, directory: string) {
      !IsListed(Listed(), name) && !OnDrive(name, directory) && !BuiltinFound(name, target)
    }

    ghost predicate BuiltinFound(name: string, target: Target) {
      F.Resolve(builtins, BuiltinQuery(name, target), F.MAX_FORWARDER_DEPTH).Found?
    }

    ghost predicate HasNowhere(imports: seq<Import>, directory: string) {
      exists k :: 0 <= k < |imports| && Nowhere(imports[k], directory)
    }

    // Loading the file loads another module for its first import, and that one depends on d.
    ghost predicate LoadsNested(ms: Table, rejected: seq<string>, name: string, provider: Provider, directory: string,
                                file: File, d: nat)
    {
      && file.Dll? && Fits(ms, file.info) && file.info.imports != [] && d < |ms|
      && exists info: DllInfo, k: int ::
           && SuppliesImport(ms, d, info.imports, k)
           && forall base: nat :: LoadableAt(ms, rejected, name, provider, directory, file.info, base, info)
    }

    ghost predicate LoadableAt(ms: Table, rejected: seq<string>, name: string, provider: Provider, directory: string,
                               info: DllInfo, base: nat, nested: DllInfo)
      requires info.imports != []
    {
      var m := Opened(name, provider, directory, info, At(base, AlignUpIf(info.sizeOfImage)));
      Normalize(info.imports[0].dll) != [] && Loadable(ms + [m], rejected, Normalize(info.imports[0].dll), nested)
    }

    // What the first import has loaded.
    ghost predicate Nested(before: Table, rejected: seq<string>, after: Table, imports: seq<Import>) {
      imports != [] && Normalize(imports[0].dll) != [] ==>
        forall info :: Loadable(before, rejected, Normalize(imports[0].dll), info) ==> LoadedFirst(before, after, info)
    }

    // What load_pe_module comes to. A module that was loaded has the contents of the file and
    // is bound to whoever offered its imports. It is loaded if all its imports are offered, and
    // not if nobody knows the module one of them names. A load that fails after it has loaded
    // another module for its first import leaves behind a reference to what that one needs.
    ghost predicate LoadOutcome(before: Table, rejectedBefore: seq<string>, after: Table, rejectedAfter: seq<string>,
                                name: string, provider: Provider, directory: string, file: File, found: Option<nat>)
    {
      && |before| <= |after|
      && (found.Some? ==>
            && found.value < |after| && Links(before, after, found.value) && IsSupplied(after, found.value)
            && file == Dll(after[found.value].info) && after[found.value].directory == directory)
      && (file.Dll? && obliging && Linkable(before, file.info) ==>
            found.Some? && NextIs(before, after, file.info) && rejectedAfter == rejectedBefore)
      && (file.Dll? && HasNowhere(file.info.imports, directory) ==> found.None?)
      && (found.None? && obliging ==>
            forall d: nat :: LoadsNested(before, rejectedBefore, name, provider, directory, file, d) ==>
              before[d].staticRefs < after[d].staticRefs)
    }

    lemma NothingLoaded(ms: Table, rejectedNow: seq<string>, name: string, provider: Provider, directory: string,
                        file: File)
      requires file.Dll? && obliging ==> !Fits(ms, file.info)
      ensures LoadOutcome(ms, rejectedNow, ms, rejectedNow, name, provider, directory, file, None)
    {
      hide Fits, AllReady, SuppliesImport;
    }

    lemma LoadAbandoned(before: Table, rejectedBefore: seq<string>, pushed: Table, full: Table, after: Table,
                        rejectedAfter: seq<string>, name: string, provider: Provider, directory: string, file: File,
                        image: Image)
      requires file.Dll? && image.At? && image.size == AlignUpIf(file.info.sizeOfImage)
      requires pushed == before + [Opened(name, provider, directory, file.info, image)]
      requires obliging ==>
                Nested(pushed, rejectedBefore, full, file.info.imports) && !AllReady(pushed, file.info.imports)
      requires GrowsFor(pushed, full, Some(|before|)) && ExcessKept(before, full)
      requires Grows(before, after) && |after| == |before| < |full|
      requires forall d: nat :: d < |before| ==> Excess(after, d) == Excess(full, d) + |LeftBehind(full, |before|, d)|
      ensures LoadOutcome(before, rejectedBefore, after, rejectedAfter, name, provider, directory, file, None)
    {
      hide Fits, AllReady, LoadsNested, Nested, Excess, LeftBehind, HasNowhere, Grows, GrowsFor;
      PushingKeepsReady(before, pushed);
      if AllReady(before, file.info.imports) { ReadyStays(before, pushed, file.info.imports); }
      if obliging {
        LeavesBehind(before, rejectedBefore, pushed, full, after, name, provider, directory, file, image);
      }
    }

    lemma LoadFinished(before: Table, rejectedBefore: seq<string>, pushed: Table, full: Table,
                       entries: seq<ResolvedImport>,
                       rejectedAfter: seq<string>, name: string, provider: Provider, directory: string, file: File,
                       image: Image)
      requires file.Dll? && IsMapped(image, file.info.sizeOfImage)
      requires pushed == before + [Opened(name, provider, directory, file.info, image)]
      requires GrowsFor(pushed, full, Some(|before|)) && !HasNowhere(file.info.imports, directory)
      requires AllSupplied(full, builtins, file.info.imports, entries)
      requires Links(before, full[|before| := Readied(full[|before|], entries)], |before|)
      requires |before| !in full[|before|].dependencies
      requires obliging && AllReady(pushed, file.info.imports) ==>
                 CountsExactly(pushed, full, Some(|before|)) && rejectedAfter == rejectedBefore
      ensures var after := full[|before| := Readied(full[|before|], entries)];
        LoadOutcome(before, rejectedBefore, after, rejectedAfter, name, provider, directory, file, Some(|before|))
    {
      hide Fits, AllReady, LoadsNested, HasNowhere, Links, ExcessKept, AllSupplied;
      var after := full[|before| := Readied(full[|before|], entries)];
      assert full[|before|] == pushed[|before|].(staticRefs := full[|before|].staticRefs,
                                                 dependencies := full[|before|].dependencies);
      StayAllSupplied(full, after, builtins, file.info.imports, entries);
      PushingKeepsReady(before, pushed);
      if AllReady(before, file.info.imports) { ReadyStays(before, pushed, file.info.imports); }
      if obliging && AllReady(pushed, file.info.imports) {
        forall i: nat | i < |before|
          ensures after[i].staticRefs == before[i].staticRefs + if i in after[|before|].dependencies then 1 else 0
        {
          assert pushed[i] == before[i];
        }
      }
    }

    lemma LeavesBehind(before: Table, rejected: seq<string>, pushed: Table, full: Table, after: Table, name: string,
                       provider: Provider, directory: string, file: File, image: Image)
      requires file.Dll? && image.At? && image.size == AlignUpIf(file.info.sizeOfImage)
      requires pushed == before + [Opened(name, provider, directory, file.info, image)]
      requires Nested(pushed, rejected, full, file.info.imports) && Grows(before, after) && |after| == |before| < |full|
      requires GrowsFor(pushed, full, Some(|before|)) && ExcessKept(before, full)
      requires forall d: nat :: d < |before| ==> Excess(after, d) == Excess(full, d) + |LeftBehind(full, |before|, d)|
      ensures forall d: nat :: LoadsNested(before, rejected, name, provider, directory, file, d) ==>
                before[d].staticRefs < after[d].staticRefs
    {
      hide Loadable, Excess, LeftBehind, Offers, Normalize, Grows;
      forall d: nat | LoadsNested(before, rejected, name, provider, directory, file, d)
        ensures before[d].staticRefs < after[d].staticRefs
      {
        var info: DllInfo, k: int :| && SuppliesImport(before, d, info.imports, k)
                       && forall base: nat :: LoadableAt(before, rejected, name, provider, directory, file.info, base,
                                                         info);
        assert LoadableAt(before, rejected, name, provider, directory, file.info, image.base, info);
        assert LoadedFirst(pushed, full, info);
        SuppliesWhenPushed(before, pushed, d, info.imports, k);
        assert NewlyLoaded(full[|pushed|]);
        LeftBehindCounts(before, full, after, d);
      }
    }

    method AbandonLoad(index: nat, name: string, provider: Provider, ghost before: Table, ghost pushed: Table)
      requires Loading() && index == |before| && EdgesInRange(before) && AttachedCounted(before, -1)
      requires |pushed| == |before| + 1 && pushed[..|before|] == before && pushed[|before|].dependencies == []
      requires pushed[|before|].state == Resolving && GrowsFor(pushed, modules, Some(|before|))
      requires forall i :: 0 <= i < |before| ==> !NamedLive(before[i], name, provider)
      modifies this`modules, this`rejected, this`rank, this`events
      ensures Loading() && |modules| == |before| && Grows(before, modules) && events == old(events)
      ensures old(rejected) <= rejected && ExcessKept(before, old(modules))
      ensures forall d: nat :: d < index ==>
                Excess(modules, d) == Excess(old(modules), d) + |LeftBehind(old(modules), index, d)|
    {
      hide Sound, AttachedClosed, AttachedCounted, Resources, Excess, LeftBehind;
      PushedThenGrown(before, pushed, modules);
      RollBack(index, before);
      if provider == Profile {
        assert forall i :: 0 <= i < |before| ==> modules[i] == before[i].(staticRefs := modules[i].staticRefs);
        forall i | 0 <= i < |modules| ensures !NamedLive(modules[i], name, Profile) {
          assert !NamedLive(before[i], name, Profile);
        }
        RejectProfileModule(name);
      }
    }

    lemma LoadingFacts()
      requires Loading()
      ensures page > 0 && |rank| == |modules| <= MAX_LOADED_MODULES
      ensures EdgesInRange(modules) && AttachedCounted(modules, -1)
      ensures forall i :: 0 <= i < |modules| && modules[i].Live() && modules[i].state != Resolving ==>
                            Finished(modules[i])
    {
    }

    // A new record that meets the limits keeps the table consistent.
    lemma PushFacts(m: LoadedModule)
      requires Loading() && |modules| < MAX_LOADED_MODULES
      requires m.state == Resolving && m.dependencies == [] && m.image.At? && m.image.base > 0 && m.image.size > 0
      requires forall i :: 0 <= i < |modules| ==> Apart(modules[i].image, m.image)
      requires forall i :: 0 <= i < |modules| ==> !NamedLive(modules[i], m.name, m.provider)
      requires m.provider == Profile ==> IsListed(Listed(), m.name) && !IsRejected(rejected, m.name)
      requires m.info.sizeOfImage <= MAX_MAPPED_BYTES - TotalMapped(modules) && TotalMapped(modules) <= MAX_MAPPED_BYTES
      requires m.image.size == AlignUp(m.info.sizeOfImage, page)
      ensures ConsistentTable(modules + [m], rank + [0], clock, rejected)
      ensures NoneAttaching(modules + [m])
    {
      PushStep(modules, rank, clock, m);
      RoundedImageFits(modules, page, m.info.sizeOfImage);
      forall i | 0 <= i < |modules| && modules[i].Live() && modules[i].provider == m.provider
        ensures !IEquals(modules[i].name, m.name)
      {
        assert !NamedLive(modules[i], m.name, m.provider);
      }
      hide Sound, AttachedClosed;
      PushedResources(modules, rejected, Listed(), page, m);
    }

    ghost predicate ConsistentTable(ms: Table, rank: seq<nat>, clock: nat, rejected: seq<string>) {
      && page > 0
      && Sound(ms, rank, clock, {}, multiset{}) && AttachedClosed(ms) && AttachedCounted(ms, -1)
      && Resources(ms, rejected, Listed(), page)
    }

    lemma FinishFacts(index: nat, bound: seq<ResolvedImport>)
      requires Loading() && index < |modules| && modules[index].state == Resolving
      requires SlotsBound(modules[index := Readied(modules[index], bound)], index)
      ensures var now := modules[index := Readied(modules[index], bound)];
        ConsistentTable(now, rank[index := clock], clock + 1, rejected) && NoneAttaching(now)
    {
      hide Sound, AttachedClosed, Resources;
      FinishStep(modules, rank, clock, index, bound);
      SameResourcesSuffice(modules, modules[index := Readied(modules[index], bound)], rejected, Listed(), page);
    }

    // reject_profile_module: each name is kept once.
    method RejectProfileModule(name: string)
      modifies this`rejected
      ensures rejected == if IsRejected(old(rejected), name) then old(rejected) else old(rejected) + [name]
      ensures IsRejected(rejected, name)
      ensures old(Consistent()) && (forall i :: 0 <= i < |modules| ==> !NamedLive(modules[i], name, Profile)) ==>
                Consistent()
    {
      hide Sound, AttachedClosed, AttachedCounted;
      if IsRejected(rejected, name) { return; }
      if Consistent() && (forall i :: 0 <= i < |modules| ==> !NamedLive(modules[i], name, Profile)) {
        forall i | 0 <= i < |modules| && modules[i].Live() && modules[i].provider == Profile
          ensures !IEquals(name, modules[i].name)
        {
          assert !NamedLive(modules[i], name, Profile);
        }
        RejectingAbsentName(modules, rejected, Listed(), name);
      }
      rejected := rejected + [name];
      IEqualsReflexive(name);
      assert IEquals(rejected[|rejected| - 1], name);
    }

    // The failure path of load_pe_module. The failed module gives up the edges it has to
    // earlier modules, and everything loaded after it is dropped without giving up any.
    method RollBack(index: nat, ghost before: Table)
      requires Loading() && index == |before| < |modules| && modules[index].state == Resolving
      requires EdgesInRange(before) && AttachedCounted(before, -1) && GrewWithEdges(before, modules, index)
      modifies this`modules, this`rank, this`events
      ensures Loading() && |modules| == |before| && Grows(before, modules) && events == old(events)
      ensures forall d: nat :: d < index ==>
                Excess(modules, d) == Excess(old(modules), d) + |LeftBehind(old(modules), index, d)|
    {
      hide Sound, AttachedClosed, Resources, AttachedCounted, Detaches, Excess, LeftBehind, Grows;
      hide EdgesInRange, NoneAttaching, Distinct, Rewinds, OnlyDetaches;
      StartLeaving(modules, rank, clock, {}, multiset{}, index);
      SoundRanks(modules, rank, clock, {}, multiset{});
      SoundDistinct(modules, rank, clock, {}, multiset{}, index);
      var dependencies := modules[index].dependencies;
      ghost var full := modules;
      assert {} + {index} == {index};
      NothingReleased(full, index, dependencies);
      assert multiset{} + multiset(dependencies) == multiset(dependencies[0..]) by {
        assert dependencies[0..] == dependencies;
      }
      for k := 0 to |dependencies|
        invariant Sound(modules, rank, clock, {index}, multiset(dependencies[k..]))
        invariant AttachedClosed(modules) && AttachedCounted(modules, -1) && events == old(events)
        invariant ReleasedPrefix(full, modules, index, dependencies, k) && rank == old(rank)
      {
        assert full[index].dependencies[k] in full[index].dependencies;
        ReleaseEarlier(index, dependencies, k, before, full);
      }
      assert dependencies[|dependencies|..] == [];
      RollBackFacts(before, full, modules, rank, clock, rejected, index);
      modules := modules[..index];
      rank := rank[..index];
    }

    // One turn of its loop.
    method ReleaseEarlier(index: nat, dependencies: seq<nat>, k: nat, ghost before: Table, ghost full: Table)
      requires k < |dependencies| && Sound(modules, rank, clock, {index}, multiset(dependencies[k..]))
      requires AttachedClosed(modules) && AttachedCounted(modules, -1)
      requires GrewWithEdges(before, full, index) && AttachedCounted(before, -1)
      requires dependencies == full[index].dependencies && Distinct(dependencies)
      requires dependencies[k] < |full| && full[dependencies[k]].state != Resolving
      requires ReleasedPrefix(full, modules, index, dependencies, k)
      modifies this`modules, this`events
      ensures Sound(modules, rank, clock, {index}, multiset(dependencies[k + 1..]))
      ensures AttachedClosed(modules) && AttachedCounted(modules, -1) && events == old(events)
      ensures ReleasedPrefix(full, modules, index, dependencies, k + 1)
    {
      hide Sound, AttachedClosed, AttachedCounted, Detaches, Distinct, Rewinds, OnlyDetaches, GrewWithEdges;
      assert dependencies[k..] == [dependencies[k]] + dependencies[k + 1..];
      ghost var rest := multiset(dependencies[k + 1..]);
      assert multiset(dependencies[k..]) == rest + multiset{dependencies[k]};
      ghost var middle := modules;
      if dependencies[k] < index {
        ReleaseStaysAttached(before, full, modules, index, dependencies, k);
        ghost var log := ReleaseDependency(dependencies[k], {index}, rest);
      } else {
        SoundWithLessDue(modules, rank, clock, {index}, multiset(dependencies[k..]), rest);
      }
      ReleasedOneMore(full, middle, modules, index, dependencies, k);
    }

    lemma RollBackFacts(before: Table, full: Table, now: Table, rank: seq<nat>, clock: nat, rejected: seq<string>,
                        index: nat)
      requires page > 0 && GrewWithEdges(before, full, index) && EdgesInRange(before) && NoneAttaching(full)
      requires full[index].state == Resolving
      requires ReleasedPrefix(full, now, index, full[index].dependencies, |full[index].dependencies|)
      requires Sound(now, rank, clock, {index}, multiset{}) && AttachedClosed(now) && AttachedCounted(now, -1)
      requires Resources(full, rejected, Listed(), page)
      ensures index <= |rank| && ConsistentTable(now[..index], rank[..index], clock, rejected)
      ensures NoneAttaching(now[..index]) && Grows(before, now[..index])
      ensures forall d: nat :: d < index ==> Excess(now[..index], d) == Excess(full, d) + |LeftBehind(full, index, d)|
    {
      RollBackTable(before, full, now, index, full[index].dependencies);
      SoundRanks(now, rank, clock, {index}, multiset{});
      hide AttachedClosed, Resources, Sound, Excess, LeftBehind;
      TruncateStep(now, rank, clock, {index}, multiset{}, index);
      TruncatedResources(full, rejected, Listed(), page, index);
      SameResourcesSuffice(full[..index], now[..index], rejected, Listed(), page);
      TruncatedStates(now, index);
    }

    // resolve_imports_for_module: every import is looked up, in order, even after one has
    // failed. A guest module that provides an address is recorded as a dependency of its
    // owner once; imports of the main image count one reference each.
    method ResolveImportsForModule(owner: Option<nat>, imports: seq<Import>, directory: string)
      returns (ok: bool, entries: seq<ResolvedImport>)
      requires Loading()
      requires owner.Some? ==> owner.value < |modules| && modules[owner.value].state == Resolving
      modifies this`modules, this`rejected, this`rank, this`clock, this`events
      ensures Loading() && GrowsFor(old(modules), modules, owner) && events == old(events) && old(rejected) <= rejected
      ensures |entries| == |imports| && (ok <==> AllResolved(entries))
      ensures Bound(old(modules), modules, owner, entries) && AllSupplied(modules, builtins, imports, entries)
      ensures FromOfferers(old(modules), imports, entries)
      ensures obliging && AllReady(old(modules), imports) ==>
                ok && CountsExactly(old(modules), modules, owner) && |modules| == |old(modules)|
                    && rejected == old(rejected)
      ensures HasNowhere(imports, directory) ==> !ok
      ensures obliging ==> Nested(old(modules), old(rejected), modules, imports)
      decreases MAX_LOADED_MODULES - |modules|, 60
    {
      hide *;
      LoadingFacts();
      ok, entries := true, [];
      NothingBoundYet(owner, imports, directory);
      for k := 0 to |imports|
        invariant Loading() && events == old(events) && old(rejected) <= rejected
        invariant |entries| == k && (ok <==> AllResolved(entries)) && |old(modules)| <= |modules|
        invariant BoundSoFar(old(modules), old(rejected), modules, rejected, owner, imports, directory, entries)
      {
        var entry := ResolveImport(owner, imports, directory, entries, old(modules), old(rejected));
        AllResolvedAppend(entries, entry);
        ok := ok && entry.resolved;
        entries := entries + [entry];
      }
      AllBound(old(modules), old(rejected), modules, rejected, owner, imports, directory, entries);
    }

    // What holds after the first imports have been looked up.
    ghost predicate BoundSoFar(before: Table, rejectedBefore: seq<string>, now: Table, rejectedNow: seq<string>,
                               owner: Option<nat>, imports: seq<Import>, directory: string,
                               entries: seq<ResolvedImport>)
    {
      && GrowsFor(before, now, owner) && Bound(before, now, owner, entries)
      && AllSupplied(now, builtins, imports, entries) && FromOfferers(before, imports, entries)
      && (obliging && AllReady(before, imports) ==>
            && AllResolved(entries) && |now| == |before| && rejectedNow == rejectedBefore
            && CountsExactly(before, now, owner))
      && (AllResolved(entries) ==> NoneNowhere(imports, directory, |entries|))
      && (obliging && entries != [] ==> Nested(before, rejectedBefore, now, imports))
      && (entries == [] ==> now == before && rejectedNow == rejectedBefore)
    }

    ghost predicate NoneNowhere(imports: seq<Import>, directory: string, n: nat) {
      n <= |imports| && forall k :: 0 <= k < n ==> !Nowhere(imports[k], directory)
    }

    lemma NothingBoundYet(owner: Option<nat>, imports: seq<Import>, directory: string)
      requires owner.Some? ==> owner.value < |modules|
      ensures AllResolved([]) && BoundSoFar(modules, rejected, modules, rejected, owner, imports, directory, [])
    {
      hide GrowsFor, Bound, AllSupplied, FromOfferers;
      NothingResolved();
      GrowsForNobody(modules, owner);
      NothingBound(modules, owner);
      NoneSupplied(modules, builtins, imports);
      NothingFrom(modules, imports);
    }

    lemma AllBound(before: Table, rejectedBefore: seq<string>, now: Table, rejectedNow: seq<string>, owner: Option<nat>,
                   imports: seq<Import>, directory: string, entries: seq<ResolvedImport>)
      requires |entries| == |imports|
      requires BoundSoFar(before, rejectedBefore, now, rejectedNow, owner, imports, directory, entries)
      ensures GrowsFor(before, now, owner) && Bound(before, now, owner, entries)
      ensures AllSupplied(now, builtins, imports, entries) && FromOfferers(before, imports, entries)
      ensures obliging && AllReady(before, imports) ==>
                && AllResolved(entries) && |now| == |before| && rejectedNow == rejectedBefore
                && CountsExactly(before, now, owner)
      ensures HasNowhere(imports, directory) ==> !AllResolved(entries)
      ensures obliging ==> Nested(before, rejectedBefore, now, imports)
    {
      hide GrowsFor, Bound, AllSupplied, FromOfferers, AllReady, AllResolved, Nowhere, CountsExactly;
    }

    // One turn of the loop.
    method ResolveImport(owner: Option<nat>, imports: seq<Import>, directory: string, entries: seq<ResolvedImport>,
                         ghost before: Table, ghost rejectedBefore: seq<string>)
      returns (entry: ResolvedImport)
      requires Loading() && |entries| < |imports|
      requires owner.Some? ==> owner.value < |before| && before[owner.value].state == Resolving
      requires BoundSoFar(before, rejectedBefore, modules, rejected, owner, imports, directory, entries)
      modifies this`modules, this`rejected, this`rank, this`clock, this`events
      ensures Loading() && events == old(events) && old(rejected) <= rejected && |old(modules)| <= |modules|
      ensures BoundSoFar(before, rejectedBefore, modules, rejected, owner, imports, directory, entries + [entry])
      decreases MAX_LOADED_MODULES - |modules|, 59
    {
      hide Sound, AttachedClosed, AttachedCounted, Resources, BoundSoFar, GrowsFor, Looked, Supplied, Offers;
      hide NowhereNamed;
      hide Answered, Bound, SameExports, SameEdges, Normalize, CountsExactly, OneEdge;
      var i := imports[|entries|];
      ghost var middle, was := modules, rejected;
      var lookup := ResolveExport(i.dll, i.target, directory, [], 0);
      LookedUp(before, rejectedBefore, middle, was, owner, imports, directory, entries, lookup);
      // Writing the address into the import table is part of the mapped image.
      var patched: bool := *;
      if !lookup.found || lookup.address == 0 || i.slot == 0 || (!patched && !obliging) {
        entry := ResolvedImport(false, 0, None);
        Unbound(before, rejectedBefore, modules, rejected, owner, imports, directory, entries, lookup);
        return;
      }
      entry := ResolvedImport(true, lookup.address, lookup.index);
      ghost var looked := modules;
      LookedParts(before, rejectedBefore, modules, rejected, owner, imports, directory, entries, lookup);
      if lookup.index.Some? && lookup.index != owner {
        RecordDependency(owner, lookup.index.value, before, entry, entries);
        CountsStayExact(before, looked, modules, owner, lookup.index.value);
      } else {
        BoundElsewhere(before, modules, owner, entries, entry);
        SameExportsItself(modules);
        SameEdgesItself(modules, owner);
      }
      BoundOneMore(before, rejectedBefore, looked, modules, rejected, owner, imports, directory, entries, lookup);
    }

    // What holds when the next import has been looked up.
    ghost predicate Looked(before: Table, rejectedBefore: seq<string>, now: Table, rejectedNow: seq<string>,
                           owner: Option<nat>, imports: seq<Import>, directory: string, entries: seq<ResolvedImport>,
                           lookup: Lookup)
      requires |entries| < |imports|
    {
      var i := imports[|entries|];
      && GrowsFor(before, now, owner) && Bound(before, now, owner, entries)
      && AllSupplied(now, builtins, imports, entries) && FromOfferers(before, imports, entries)
      && (lookup.found ==>
            && Supplied(now, builtins, Normalize(i.dll), i.target, lookup.address, lookup.index, MAX_FORWARDER_DEPTH)
            && (forall g: nat :: SuppliesImport(before, g, imports, |entries|) ==> lookup.index == Some(g))
            && !Nowhere(i, directory))
      && (obliging && AllReady(before, imports) ==>
            && AllResolved(entries) && |now| == |before| && rejectedNow == rejectedBefore
            && CountsExactly(before, now, owner) && lookup.found && lookup.address != 0 && i.slot != 0)
      && (AllResolved(entries) ==> NoneNowhere(imports, directory, |entries|))
      && (obliging ==> Nested(before, rejectedBefore, now, imports))
    }

    lemma LookedUp(before: Table, rejectedBefore: seq<string>, middle: Table, rejectedThen: seq<string>,
                   owner: Option<nat>,
                   imports: seq<Import>, directory: string, entries: seq<ResolvedImport>, lookup: Lookup)
      requires |entries| < |imports| && Grows(middle, modules) && (owner.Some? ==> owner.value < |before|)
      requires BoundSoFar(before, rejectedBefore, middle, rejectedThen, owner, imports, directory, entries)
      requires var i := imports[|entries|]; var name := Normalize(i.dll);
        && (lookup.found ==>
              Supplied(modules, builtins, name, i.target, lookup.address, lookup.index, MAX_FORWARDER_DEPTH))
        && (lookup.found ==> forall g :: Offers(middle, g, name, i.target) ==> lookup.index == Some(g))
        && if Askable(name, i.target, [], 0)
           then Answered(middle, rejectedThen, modules, rejected, name, i.target, directory, [], 0, lookup)
           else !lookup.found
      ensures Looked(before, rejectedBefore, modules, rejected, owner, imports, directory, entries, lookup)
    {
      hide GrowsFor, Grows, Bound, AllSupplied, FromOfferers, AllReady, AllResolved, Nested, NowhereNamed, Normalize;
      hide Supplied;
      hide Offers, Answerable, Loadable, LoadedFirst, SuppliesImport, SameExports, Unanswered, CountsExactly;
      var k := |entries|;
      if obliging && AllReady(before, imports) { ReadyAgain(before, middle, owner, imports, k); }
      OfferedSince(before, middle, owner, imports, k);
      if obliging {
        forall info | Loadable(middle, rejectedThen, Normalize(imports[k].dll), info) && Normalize(imports[k].dll) != []
          ensures LoadedFirst(middle, modules, info)
        {
          assert Available(middle, rejectedThen, Normalize(imports[k].dll), directory, info);
        }
        NestedSoFar(before, rejectedBefore, middle, rejectedThen, modules, imports, k);
      }
      GrowsForThenGrows(before, middle, modules, owner);
      assert |middle| >= |before| by { GrowsForLonger(before, middle, owner); }
      BoundThenGrows(before, middle, modules, owner, entries);
      assert SameExports(middle, modules) by {
        GrowsIsGrowsFor(middle, modules);
        GrowingKeepsExports(middle, modules, None);
      }
      StayAllSupplied(middle, modules, builtins, imports, entries);
    }

    lemma GrowsIsGrowsFor(before: Table, after: Table)
      requires Grows(before, after)
      ensures GrowsFor(before, after, None)
    {
    }

    lemma GrowsForLonger(before: Table, after: Table, owner: Option<nat>)
      requires GrowsFor(before, after, owner)
      ensures |before| <= |after|
      ensures owner.Some? ==> owner.value < |before| && after[owner.value].state == before[owner.value].state
    {
    }

    lemma LookedParts(before: Table, rejectedBefore: seq<string>, now: Table, rejectedNow: seq<string>,
                      owner: Option<nat>,
                      imports: seq<Import>, directory: string, entries: seq<ResolvedImport>, lookup: Lookup)
      requires |entries| < |imports|
      requires Looked(before, rejectedBefore, now, rejectedNow, owner, imports, directory, entries, lookup)
      ensures GrowsFor(before, now, owner) && Bound(before, now, owner, entries) && |before| <= |now|
      ensures owner.Some? ==> owner.value < |before| && now[owner.value].state == before[owner.value].state
    {
      hide Bound, AllSupplied, FromOfferers, Supplied, SuppliesImport, Nested;
      GrowsForLonger(before, now, owner);
    }

    // An import that is not resolved.
    lemma Unbound(before: Table, rejectedBefore: seq<string>, now: Table, rejectedNow: seq<string>, owner: Option<nat>,
                  imports: seq<Import>, directory: string, entries: seq<ResolvedImport>, lookup: Lookup)
      requires |entries| < |imports|
      requires Looked(before, rejectedBefore, now, rejectedNow, owner, imports, directory, entries, lookup)
      requires !lookup.found || lookup.address == 0 || imports[|entries|].slot == 0 || !obliging
      ensures BoundSoFar(before, rejectedBefore, now, rejectedNow, owner, imports, directory,
                         entries + [ResolvedImport(false, 0, None)])
    {
      hide GrowsFor, Bound, AllSupplied, FromOfferers, AllReady, AllResolved, Nested, Nowhere, Normalize, Supplied;
      hide SuppliesImport;
      BoundUnresolved(before, now, owner, entries);
      AllResolvedAppend(entries, ResolvedImport(false, 0, None));
      OneMoreSupplied(now, builtins, imports, entries, ResolvedImport(false, 0, None));
      FromOfferersMore(before, imports, entries, ResolvedImport(false, 0, None));
    }

    // An import that is, after the dependency has been recorded.
    lemma BoundOneMore(before: Table, rejectedBefore: seq<string>, looked: Table, now: Table, rejectedNow: seq<string>,
                       owner: Option<nat>, imports: seq<Import>, directory: string, entries: seq<ResolvedImport>,
                       lookup: Lookup)
      requires |entries| < |imports| && lookup.found && (owner.Some? ==> owner.value < |before|)
      requires Looked(before, rejectedBefore, looked, rejectedNow, owner, imports, directory, entries, lookup)
      requires SameExports(looked, now) && SameEdges(looked, now, owner)
      requires CountsExactly(before, looked, owner) ==> CountsExactly(before, now, owner)
      requires var e := ResolvedImport(true, lookup.address, lookup.index);
        GrowsFor(before, now, owner) && Bound(before, now, owner, entries + [e])
      ensures BoundSoFar(before, rejectedBefore, now, rejectedNow, owner, imports, directory,
                         entries + [ResolvedImport(true, lookup.address, lookup.index)])
    {
      hide GrowsFor, Bound, AllSupplied, FromOfferers, AllReady, AllResolved, Nested, Nowhere, Normalize, Supplied;
      hide SuppliesImport;
      hide SameExports, CountsExactly;
      var e := ResolvedImport(true, lookup.address, lookup.index);
      OneMoreSupplied(looked, builtins, imports, entries, e);
      FromOfferersMore(before, imports, entries, e);
      StayAllSupplied(looked, now, builtins, imports, entries + [e]);
      if obliging { NestedStays(before, rejectedBefore, looked, now, owner, imports); }
      AllResolvedAppend(entries, e);
    }

    // What the first import loads, seen from after import k.
    lemma NestedSoFar(before: Table, rejectedBefore: seq<string>, middle: Table, rejectedThen: seq<string>,
                      after: Table, imports: seq<Import>, k: nat)
      requires k < |imports| && Grows(middle, after)
      requires if k > 0 then Nested(before, rejectedBefore, middle, imports) else
                 middle == before && rejectedThen == rejectedBefore
                 && (Normalize(imports[0].dll) != [] ==> forall info ::
                       Loadable(middle, rejectedThen, Normalize(imports[0].dll), info) ==>
                         LoadedFirst(middle, after, info))
      ensures Nested(before, rejectedBefore, after, imports)
    {
      hide Loadable, LoadedFirst, Grows, Normalize;
      forall info ensures LoadedFirst(before, middle, info) ==> LoadedFirst(before, after, info) {
        LoadedFirstStays(before, middle, after, info);
      }
    }

    lemma NestedStays(before: Table, rejectedBefore: seq<string>, middle: Table, after: Table, owner: Option<nat>,
                      imports: seq<Import>)
      requires Nested(before, rejectedBefore, middle, imports) && SameExports(middle, after)
      requires SameEdges(middle, after, owner)
      requires owner.Some? ==> owner.value < |before|
      ensures Nested(before, rejectedBefore, after, imports)
    {
      hide Loadable, LoadedFirst, Normalize, SameExports, SameEdges;
      forall info ensures LoadedFirst(before, middle, info) ==> LoadedFirst(before, after, info) {
        LoadedFirstUntouched(before, middle, after, owner, info);
      }
    }

    method RecordDependency(owner: Option<nat>, d: nat, ghost before: Table, ghost entry: ResolvedImport,
                            ghost entries: seq<ResolvedImport>)
      requires Loading() && d < |modules| && Finished(modules[d]) && owner != Some(d)
      requires owner.Some? ==> owner.value < |modules| && modules[owner.value].state == Resolving
      requires GrowsFor(before, modules, owner) && Bound(before, modules, owner, entries)
      requires entry.resolved && entry.address != 0 && entry.provider == Some(d)
      modifies this`modules
      ensures Loading() && GrowsFor(before, modules, owner) && Bound(before, modules, owner, entries + [entry])
      ensures SameExports(old(modules), modules) && SameEdges(old(modules), modules, owner)
      ensures |modules| == |old(modules)| && OneEdge(old(modules), modules, owner, d)
    {
      hide *;
      IsOneEdge(modules, owner, d);
      BothParts();
      SameEdgesItself(modules, owner);
      SameEdgesCounted(modules, owner, d);
      SameExportsCounted(modules, d);
      if owner.None? {
        CountFacts(d, modules[d].staticRefs + 1, modules[d].dynamicRefs);
        GrowsForThenCount(before, modules, d);
        BoundByCount(before, modules, d, entries, entry);
        modules := modules[d := modules[d].(staticRefs := modules[d].staticRefs + 1)];
        TableFacts();
        return;
      }
      var o := owner.value;
      if d in modules[o].dependencies {
        BoundAgain(before, modules, o, d, entries, entry);
        return;
      }
      EdgeFacts(o, d);
      SameEdgesEdge(modules, o, d);
      SameExportsEdge(modules, o, d);
      GrowsForThenEdge(before, modules, o, d);
      BoundByEdge(before, modules, o, d, entries, entry);
      EdgeUpdate(modules, o, d);
      modules := modules[o := modules[o].(dependencies := modules[o].dependencies + [d])]
                        [d := modules[d].(staticRefs := modules[d].staticRefs + 1)];
      TableFacts();
    }

    lemma IsOneEdge(ms: Table, owner: Option<nat>, d: nat)
      requires d < |ms| && owner != Some(d) && (owner.Some? ==> owner.value < |ms|)
      ensures OneEdge(ms, ms, owner, d)
      ensures owner.Some? && d !in ms[owner.value].dependencies ==> OneEdge(ms, WithEdge(ms, owner.value, d), owner, d)
      ensures owner.None? ==> forall now :: OneEdge(ms, now, owner, d)
    {
    }

    lemma CountsStayExact(before: Table, looked: Table, now: Table, owner: Option<nat>, d: nat)
      requires GrowsFor(before, looked, owner) && OneEdge(looked, now, owner, d)
      ensures CountsExactly(before, looked, owner) ==> CountsExactly(before, now, owner)
    {
      hide ExcessKept, WithEdge, OneEdge;
      if CountsExactly(before, looked, owner) { CountsOneMore(before, looked, now, owner, d); }
    }

    lemma BothParts()
      requires Loading()
      ensures Consistent() && NoneAttaching(modules)
    {
    }

    lemma TableFacts()
      requires ConsistentTable(modules, rank, clock, rejected) && NoneAttaching(modules)
      ensures Loading()
    {
    }

    // Counting one more reference, static or dynamic.
    lemma CountFacts(d: nat, statics: nat, dynamics: nat)
      requires Consistent() && d < |modules| && statics >= modules[d].staticRefs
      requires modules[d].state == Attached ==> statics + dynamics > 0
      ensures ConsistentTable(modules[d := modules[d].(staticRefs := statics, dynamicRefs := dynamics)], rank, clock,
                              rejected)
      ensures NoneAttaching(modules) ==>
                NoneAttaching(modules[d := modules[d].(staticRefs := statics, dynamicRefs := dynamics)])
    {
      hide Sound, AttachedClosed, Resources;
      CountStep(modules, rank, clock, d, statics, dynamics);
      SameResourcesSuffice(modules, modules[d := modules[d].(staticRefs := statics, dynamicRefs := dynamics)],
                           rejected, Listed(), page);
    }

    lemma EdgeFacts(o: nat, d: nat)
      requires Loading() && o < |modules| && d < |modules| && o != d && d !in modules[o].dependencies
      requires modules[o].state == Resolving && Finished(modules[d])
      ensures ConsistentTable(WithEdge(modules, o, d), rank, clock, rejected)
      ensures NoneAttaching(WithEdge(modules, o, d))
    {
      hide Sound, AttachedClosed, Resources;
      EdgeStep(modules, rank, clock, o, d);
      EdgeKeepsClosed(modules, o, d);
      EdgeKeepsTheRest(modules, o, d);
      SameResourcesSuffice(modules, WithEdge(modules, o, d), rejected, Listed(), page);
    }

    // resolve_export_named_internal and resolve_export_ordinal_internal, which differ only
    // in how an export is matched: profile first, then drive_c, then the built-in modules.
    method ResolveExport(raw: string, target: Target, directory: string, visits: seq<Visit>, depth: nat)
      returns (lookup: Lookup)
      requires Loading() && depth <= MAX_FORWARDER_DEPTH
      modifies this`modules, this`rejected, this`rank, this`clock, this`events
      ensures Loading() && Grows(old(modules), modules) && events == old(events) && old(rejected) <= rejected
      ensures Usable(lookup.index)
      ensures lookup.found ==> Supplied(modules, builtins, Normalize(raw), target, lookup.address, lookup.index,
                                        MAX_FORWARDER_DEPTH - depth)
      ensures lookup.found ==> forall i :: Offers(old(modules), i, Normalize(raw), target) ==> lookup.index == Some(i)
      ensures if Askable(Normalize(raw), target, visits, depth)
                then Answered(old(modules), old(rejected), modules, rejected, Normalize(raw), target, directory, visits,
                              depth, lookup)
                else !lookup.found
      decreases MAX_LOADED_MODULES - |modules|, 50 - depth, 0
    {
      hide Sound, AttachedClosed, AttachedCounted, Resources, F.Resolve, Normalize, IEquals, FirstExport;
      hide ProfileOutcome, DriveOutcome, GuestOutcome, Answered;
      LoadingFacts();
      var name := NormalizeModuleName(raw);
      if name == [] { return NOT_FOUND; }
      if depth >= MAX_FORWARDER_DEPTH || SameVisit(visits, name, target) { return NOT_FOUND; }
      var trail := visits + [Visit(name, target)];
      ghost var before, given := modules, rejected;
      var guest := EnsureProfileModule(name);
      ghost var middle, known := modules, rejected;
      var answer := TryGuest(guest, name, target, directory, trail, depth);
      if answer.Some? {
        ProfileAnswers(before, given, middle, known, modules, rejected, name, target, directory, visits, depth, guest,
                       answer.value);
        return answer.value;
      }
      assert modules == middle;
      ProfileSilent(before, given, middle, known, name, target, visits, depth, guest);
      lookup := AskElsewhere(name, target, directory, visits, depth, before, given);
    }

    // The rest of a query that no profile module answers.
    method AskElsewhere(name: string, target: Target, directory: string, visits: seq<Visit>, depth: nat,
                        ghost before: Table, ghost given: seq<string>)
      returns (lookup: Lookup)
      requires Loading() && Grows(before, modules) && depth < MAX_FORWARDER_DEPTH
      requires Silent(before, given, modules, rejected, name, target)
      requires !Answerable(before, name, target, visits, depth)
      modifies this`modules, this`rejected, this`rank, this`clock, this`events
      ensures Loading() && Grows(before, modules) && events == old(events) && old(rejected) <= rejected
      ensures Usable(lookup.index)
      ensures lookup.found ==> Supplied(modules, builtins, name, target, lookup.address, lookup.index,
                                        MAX_FORWARDER_DEPTH - depth)
      ensures Answered(before, given, modules, rejected, name, target, directory, visits, depth, lookup)
      decreases MAX_LOADED_MODULES - |modules|, 50 - depth - 1, 2
    {
      hide Sound, AttachedClosed, AttachedCounted, Resources, F.Resolve, IEquals, FirstExport, Silent, Answerable;
      hide DriveOutcome, GuestOutcome, Answered, Grows;
      LoadingFacts();
      ghost var middle, known := modules, rejected;
      var trail := visits + [Visit(name, target)];
      var guest := EnsureDriveModule(name, directory);
      GrowsCompose(before, middle, modules);
      ghost var searched, left := modules, rejected;
      GrowsLonger(middle, searched);
      var answer := TryGuest(guest, name, target, directory, trail, depth);
      GrowsCompose(before, searched, modules);
      if answer.Some? {
        DriveAnswers(before, given, middle, known, searched, left, modules, rejected, name, target, directory, visits,
                     depth, guest, answer.value);
        return answer.value;
      }
      var builtin := F.FindExportForwarded(builtins, BuiltinQuery(name, target));
      lookup := if builtin.found then Lookup(true, builtin.entry.address, None) else NOT_FOUND;
      BuiltinAnswers(before, given, middle, known, searched, left, modules, rejected, name, target, directory, visits,
                     depth, guest, lookup);
    }

    lemma GrowsLonger(before: Table, after: Table)
      requires Grows(before, after)
      ensures |before| <= |after|
    {
    }

    // Why a query may fail: a module of that name exports the target but leads elsewhere, or
    // nobody exports it, neither a finished module nor the built-in ones.
    ghost predicate Unanswered(before: Table, after: Table, name: string, target: Target, directory: string) {
      || Diverted(after, name, target)
      || ((forall g :: !Offers(before, g, name, target)) && !BuiltinFound(name, target)
          && (OnDrive(name, directory) ==> forall g :: !DriveOffers(before, g, name, target)))
    }

    // What a query comes to. It fails only for these reasons, and then for sure when nobody
    // knows the module. What loaded profile modules can answer is found and nothing is loaded;
    // otherwise a module that can be loaded is, and what it exports itself is found.
    ghost predicate Answered(before: Table, rejectedBefore: seq<string>, after: Table, rejectedAfter: seq<string>,
                             name: string, target: Target, directory: string, visits: seq<Visit>, depth: nat,
                             lookup: Lookup)
    {
      && (!lookup.found ==> Unanswered(before, after, name, target, directory))
      && (NowhereNamed(name, target, directory) ==> !lookup.found)
      && (Answerable(before, name, target, visits, depth) ==>
            lookup.found && lookup.address != 0 && after == before && rejectedAfter == rejectedBefore)
      && (obliging ==> forall info :: Available(before, rejectedBefore, name, directory, info) ==>
            LoadedFirst(before, after, info) && (ExportsAt(info, target) ==> lookup.found && lookup.address != 0))
    }

    // A module with these contents can be loaded for this name: from the profile, or from
    // drive_c if the profile has no such name.
    ghost predicate Available(ms: Table, rejected: seq<string>, name: string, directory: string, info: DllInfo) {
      Loadable(ms, rejected, name, info) || (!IsListed(Listed(), name) && DriveLoadable(ms, name, directory, info))
    }

    // The profile has no module that offers the target. What it has loaded does not export it.
    ghost predicate Silent(before: Table, rejectedBefore: seq<string>, middle: Table, rejectedThen: seq<string>,
                           name: string, target: Target)
    {
      && (forall g :: !Offers(before, g, name, target))
      && (!IsListed(Listed(), name) ==> middle == before && rejectedThen == rejectedBefore)
      && (obliging ==> forall info :: Loadable(before, rejectedBefore, name, info) ==>
            LoadedFirst(before, middle, info) && !ExportsAt(info, target))
    }

    lemma MappedExport(ms: Table, g: nat, target: Target, trail: seq<Visit>, depth: nat)
      requires g < |ms| && IsMapped(ms[g].image, ms[g].info.sizeOfImage) && page > 0 && depth < MAX_FORWARDER_DEPTH
      requires ExportsAt(ms[g].info, target)
      ensures LeadsToAddress(ms, g, target, trail, depth)
    {
      hide FirstExport;
    }

    lemma IsDiverted(before: Table, middle: Table, after: Table, name: string, target: Target, directory: string,
                     guest: Option<nat>)
      requires guest.Some? && guest.value < |middle| && Named(middle[guest.value], name)
      requires LeadsElsewhere(middle[guest.value], target) && Grows(middle, after)
      ensures Unanswered(before, after, name, target, directory)
    {
      hide LeadsElsewhere, IEquals;
      GrowingKeepsExports(middle, after, None);
      assert Diverted(middle, name, target);
      DivertedStays(middle, after, name, target);
    }

    // The profile module answers, ...
    lemma ProfileAnswers(before: Table, rejectedBefore: seq<string>, middle: Table, rejectedThen: seq<string>,
                         after: Table, rejectedAfter: seq<string>, name: string, target: Target, directory: string,
                         visits: seq<Visit>, depth: nat, guest: Option<nat>, lookup: Lookup)
      requires page > 0 && depth < MAX_FORWARDER_DEPTH
      requires ProfileOutcome(before, rejectedBefore, middle, rejectedThen, name, guest) && Grows(middle, after)
      requires forall i :: 0 <= i < |before| && NamedFinished(before[i], name, Profile) ==>
                 guest == Some(i) && middle == before && rejectedThen == rejectedBefore
      requires guest.Some? ==> guest.value < |middle| && Named(middle[guest.value], name)
      requires GuestOutcome(middle, rejectedThen, after, rejectedAfter, guest, target, visits + [Visit(name, target)],
                            depth, Some(lookup))
      ensures Answered(before, rejectedBefore, after, rejectedAfter, name, target, directory, visits, depth, lookup)
    {
      hide Unanswered, NamedFinished, IEquals, FirstExport, LeadsElsewhere, Grows, Loadable, Links, LeadsToAddress;
      hide ExportsAt, IsSupplied, ProfileDll, SameVisit;
      if !lookup.found { IsDiverted(before, middle, after, name, target, directory, guest); }
      forall info | Loadable(before, rejectedBefore, name, info) && obliging
        ensures LoadedFirst(before, after, info) && (ExportsAt(info, target) ==> lookup.found && lookup.address != 0)
      {
        assert LoadedFirst(before, middle, info);
        LoadedFirstStays(before, middle, after, info);
        if ExportsAt(info, target) {
          MappedExport(middle, guest.value, target, visits + [Visit(name, target)], depth);
        }
      }
    }

    // ... or it has no such export, ...
    lemma ProfileSilent(before: Table, rejectedBefore: seq<string>, middle: Table, rejectedThen: seq<string>,
                        name: string, target: Target, visits: seq<Visit>, depth: nat, guest: Option<nat>)
      requires forall i :: 0 <= i < |before| && NamedFinished(before[i], name, Profile) ==>
                 guest == Some(i) && middle == before
      requires ProfileOutcome(before, rejectedBefore, middle, rejectedThen, name, guest)
      requires guest.Some? ==> guest.value < |middle| && FirstExport(middle[guest.value].info.exports, target).None?
      ensures Silent(before, rejectedBefore, middle, rejectedThen, name, target)
      ensures !Answerable(before, name, target, visits, depth)
    {
      hide NamedFinished, FirstExport, Links, Loadable, IsSupplied, ProfileDll;
      forall g ensures !Offers(before, g, name, target) { }
    }

    // ... and the drive module may answer, ...
    lemma DriveAnswers(before: Table, rejectedBefore: seq<string>, middle: Table, rejectedMiddle: seq<string>,
                       searched: Table, rejectedThen: seq<string>, after: Table, rejectedAfter: seq<string>,
                       name: string,
                       target: Target, directory: string, visits: seq<Visit>, depth: nat, guest: Option<nat>,
                       lookup: Lookup)
      requires page > 0 && depth < MAX_FORWARDER_DEPTH
      requires Silent(before, rejectedBefore, middle, rejectedMiddle, name, target)
      requires !Answerable(before, name, target, visits, depth)
      requires Grows(middle, searched) && Grows(searched, after)
      requires DriveOutcome(middle, rejectedMiddle, searched, rejectedThen, name, directory, guest)
      requires guest.Some? ==> guest.value < |searched| && Named(searched[guest.value], name)
      requires GuestOutcome(searched, rejectedThen, after, rejectedAfter, guest, target, visits + [Visit(name, target)],
                            depth, Some(lookup))
      ensures Answered(before, rejectedBefore, after, rejectedAfter, name, target, directory, visits, depth, lookup)
    {
      hide Unanswered, NamedFinished, IEquals, FirstExport, LeadsElsewhere, Grows, Offers, OnDrive, Answerable, Links;
      hide Loadable, DriveLoadable, DriveDll, LeadsToAddress, ExportsAt, IsSupplied;
      GrowsCompose(middle, searched, after);
      if !lookup.found { IsDiverted(before, searched, after, name, target, directory, guest); }
      forall info | Available(before, rejectedBefore, name, directory, info) && obliging
        ensures LoadedFirst(before, after, info) && (ExportsAt(info, target) ==> lookup.found && lookup.address != 0)
      {
        if Loadable(before, rejectedBefore, name, info) { LoadedFirstStays(before, middle, after, info); }
        else {
          assert LoadedFirst(before, searched, info);
          LoadedFirstStays(before, searched, after, info);
          if ExportsAt(info, target) {
            MappedExport(searched, guest.value, target, visits + [Visit(name, target)], depth);
          }
        }
      }
    }

    // ... or the built-in ones do, or nobody.
    lemma BuiltinAnswers(before: Table, rejectedBefore: seq<string>, middle: Table, rejectedMiddle: seq<string>,
                         searched: Table, rejectedThen: seq<string>, after: Table, rejectedAfter: seq<string>,
                         name: string,
                         target: Target, directory: string, visits: seq<Visit>, depth: nat, guest: Option<nat>,
                         lookup: Lookup)
      requires Silent(before, rejectedBefore, middle, rejectedMiddle, name, target)
      requires !Answerable(before, name, target, visits, depth)
      requires Grows(before, middle) && Grows(middle, searched)
      requires DriveOutcome(middle, rejectedMiddle, searched, rejectedThen, name, directory, guest)
      requires after == searched && (guest.Some? ==> guest.value < |searched|)
      requires guest.Some? ==> FirstExport(searched[guest.value].info.exports, target).None?
      requires lookup.found <==> BuiltinFound(name, target)
      ensures Answered(before, rejectedBefore, after, rejectedAfter, name, target, directory, visits, depth, lookup)
    {
      hide NamedFinished, IEquals, FirstExport, LeadsElsewhere, Grows, Offers, OnDrive, BuiltinFound, Answerable, Links;
      hide Loadable, DriveLoadable, DriveDll, IsSupplied, Diverted;
      GrowsIsGrowsFor(before, middle);
      GrowingKeepsReady(before, middle, None);
      forall g | OnDrive(name, directory) ensures !DriveOffers(before, g, name, target) {
        OffersStay(before, middle, g, name, target);
      }
      forall info | Available(before, rejectedBefore, name, directory, info) && obliging
        ensures LoadedFirst(before, after, info) && !ExportsAt(info, target)
      {
        if Loadable(before, rejectedBefore, name, info) { LoadedFirstStays(before, middle, after, info); }
        else { assert LoadedFirst(before, searched, info); }
      }
    }

    // What the try_guest step comes to: an export that leads to an address without loading is
    // found and nothing is loaded; only one that leads elsewhere can fail.
    ghost predicate GuestOutcome(before: Table, rejectedBefore: seq<string>, after: Table, rejectedAfter: seq<string>,
                                 guest: Option<nat>, target: Target, trail: seq<Visit>, depth: nat,
                                 answer: Option<Lookup>)
      requires depth < MAX_FORWARDER_DEPTH
    {
      match guest
      case None => answer.None?
      case Some(g) =>
        && g < |before|
        && (LeadsToAddress(before, g, target, trail, depth) ==>
              answer.Some? && answer.value.found && answer.value.address != 0
              && after == before && rejectedAfter == rejectedBefore)
        && (answer.Some? && !answer.value.found ==> LeadsElsewhere(before[g], target))
    }

    // The try_guest step: the module's own export, or what its forwarder leads to, which
    // still counts as coming from this module.
    method TryGuest(guest: Option<nat>, name: string, target: Target, directory: string, trail: seq<Visit>, depth: nat)
      returns (answer: Option<Lookup>)
      requires Loading() && depth < MAX_FORWARDER_DEPTH && Usable(guest)
      requires guest.Some? ==> Named(modules[guest.value], name)
      modifies this`modules, this`rejected, this`rank, this`clock, this`events
      ensures Loading() && Grows(old(modules), modules) && events == old(events) && old(rejected) <= rejected
      ensures answer.Some? ==> Usable(answer.value.index)
      ensures answer.Some? && answer.value.found ==>
                guest.Some? && answer.value.index == guest
                && Supplied(modules, builtins, name, target, answer.value.address, guest, MAX_FORWARDER_DEPTH - depth)
      ensures answer.None? && guest.Some? ==> FirstExport(modules[guest.value].info.exports, target).None?
      ensures answer.None? ==> modules == old(modules) && rejected == old(rejected)
      ensures GuestOutcome(old(modules), old(rejected), modules, rejected, guest, target, trail, depth, answer)
      decreases MAX_LOADED_MODULES - |modules|, 50 - depth - 1, 1
    {
      hide Sound, AttachedClosed, AttachedCounted, Resources, BuiltinSupplies, Normalize, IEquals, FirstExport;
      hide Available;
      hide LoadedFirst, Unanswered, NowhereNamed, SameVisit;
      LoadingFacts();
      if guest.None? { return None; }
      var m := modules[guest.value];
      var k := 0;
      while k < |m.info.exports| && !Matches(m.info.exports[k], target)
        invariant k <= |m.info.exports| && forall j :: 0 <= j < k ==> !Matches(m.info.exports[j], target)
      {
        k := k + 1;
      }
      FirstExportAt(m.info.exports, target, k);
      if k == |m.info.exports| { return None; }
      var e := m.info.exports[k];
      match e.forward {
        case NoForward =>
          return Some(Lookup(true, ExportAddress(m, e.rva), guest));
        case BadForward =>
          return Some(Lookup(false, 0, guest));
        case ForwardTo(dll, next) =>
          assert LeadsToAddress(modules, guest.value, target, trail, depth) ==>
              Answerable(modules, Normalize(dll), next, trail, depth + 1);
          var forwarded := ResolveExport(dll, next, directory, trail, depth + 1);
          if !forwarded.found { return Some(forwarded); }
          ForwardSupplies(modules, builtins, name, target, forwarded.address, guest.value, e, forwarded.index,
                          MAX_FORWARDER_DEPTH - depth - 1);
          return Some(forwarded.(index := guest));
      }
    }

    // ------------------------------------------------------------ whole calls

    // resolve_imports: the main image takes its imports from the graph.
    method ResolveImports(program: Program, directory: string) returns (ok: bool, entries: seq<ResolvedImport>)
      requires Valid()
      modifies this`modules, this`rejected, this`rank, this`clock, this`events, this`main, this`mainDirectory
      ensures Valid() && Grows(old(modules), modules) && events == old(events) && old(rejected) <= rejected
      ensures |entries| == |program.imports| && (ok <==> AllResolved(entries))
      ensures Bound(old(modules), modules, None, entries) && AllSupplied(modules, builtins, program.imports, entries)
      ensures main == Some(program) && mainDirectory == directory
    {
      hide Consistent, Bound, Grows, AllSupplied;
      main, mainDirectory := Some(program), directory;
      SettledLoads();
      ok, entries := ResolveImportsForModule(None, program.imports, directory);
      assert Consistent() && Grows(old(modules), modules) by { BothParts(); GrowsForNoOwner(old(modules), modules); }
      GrowingEvolves(old(modules), modules);
    }

    lemma SettledLoads()
      requires Consistent() && Settled(modules)
      ensures Loading()
    {
    }

    // Taking a reference to a module and attaching it; a failure gives the reference back.
    method HoldAndAttach(index: nat) returns (ok: bool)
      requires Valid() && index < |modules| && Finished(modules[index])
      modifies this`modules, this`events
      ensures Valid() && Evolves(old(modules), modules) && |modules| == |old(modules)| && old(events) <= events
      ensures OneMore(old(modules), modules, if ok then Some(index) else None)
      ensures if ok then modules[index].state == Attached && modules[index].dynamicRefs > 0 else !modules[index].Live()
      ensures old(modules[index].state) == Attached ==>
                ok && modules == HeldOnce(old(modules), index)
      ensures ok ==> AttachesOnly(HeldOnce(old(modules), index), modules)
      ensures obliging && NoneOut(old(modules)) ==> ok
    {
      hide Consistent, ConsistentTable, Evolves, Sound, Rewinds, AttachedBy, InOrder, Held, OneMore, Resources;
      hide AttachedClosed, AttachedCounted, AttachEvents, NoneOut, AttachesOnly;
      ghost var before := modules;
      CountFacts(index, modules[index].staticRefs, modules[index].dynamicRefs + 1);
      modules := modules[index := modules[index].(dynamicRefs := modules[index].dynamicRefs + 1)];
      ghost var held := modules;
      if NoneOut(before) { NoneOutHeld(before, index); }
      TableParts(modules, rank, clock, rejected);
      ghost var log;
      ok, log := AttachModule(index);
      if ok { AttachedByOnly(held, modules, log); }
      RewindingEvolves(held, modules);
      RewindingKeepsResources(held, modules, rejected, Listed(), page);
      TableWhole();
      HeldMore(before, held, modules, index, tornDown);
      if !ok {
        GiveBack(index);
      }
    }

    // The reference to a module that could not be attached is given back.
    method GiveBack(index: nat)
      requires Consistent() && index < |modules| && !modules[index].Live() && modules[index].dynamicRefs > 0
      modifies this`modules
      ensures Consistent()
      ensures modules == old(modules)[index := old(modules[index]).(dynamicRefs := old(modules[index].dynamicRefs) - 1)]
    {
      hide Consistent, ConsistentTable, Sound, Resources, AttachedClosed, AttachedCounted;
      var now := modules[index := modules[index].(dynamicRefs := modules[index].dynamicRefs - 1)];
      CountFacts(index, modules[index].staticRefs, modules[index].dynamicRefs - 1);
      TableParts(now, rank, clock, rejected);
      modules := now;
      TableWhole();
    }

    lemma TableParts(ms: Table, rank: seq<nat>, clock: nat, rejected: seq<string>)
      requires ConsistentTable(ms, rank, clock, rejected)
      ensures page > 0 && Sound(ms, rank, clock, {}, multiset{}) && AttachedClosed(ms) && AttachedCounted(ms, -1)
      ensures Resources(ms, rejected, Listed(), page)
    {
    }

    lemma TableWhole()
      requires page > 0 && Sound(modules, rank, clock, {}, multiset{}) && AttachedClosed(modules)
      requires AttachedCounted(modules, -1) && Resources(modules, rejected, Listed(), page)
      ensures Consistent()
    {
    }

    // Whom a handle belongs to: a guest module first, then a built-in one.
    ghost predicate HandleOf(holder: Holder, handle: nat)
      reads this`modules, this`builtinModules
    {
      match holder
      case Nobody =>
        && (forall i :: 0 <= i < |modules| ==> !Owns(modules[i], handle))
        && forall n :: 0 <= n < |builtinModules| ==> BuiltinHandle(n) != handle
      case Guest(i) => i < |modules| && Owns(modules[i], handle)
      case Builtin(n) =>
        && (forall i :: 0 <= i < |modules| ==> !Owns(modules[i], handle))
        && n < |builtinModules| && BuiltinHandle(n) == handle
    }

    // find_module_for_handle: the live module mapped at this address.
    method FindModuleForHandle(handle: nat) returns (found: Option<nat>)
      ensures found.Some? ==> found.value < |modules| && Owns(modules[found.value], handle)
      ensures found.None? ==> forall i :: 0 <= i < |modules| ==> !Owns(modules[i], handle)
    {
      if handle == 0 { return None; }
      for i := 0 to |modules|
        invariant forall j :: 0 <= j < i ==> !Owns(modules[j], handle)
      {
        if Owns(modules[i], handle) { return Some(i); }
      }
      return None;
    }

    method FindBuiltinHandle(handle: nat) returns (found: Option<nat>)
      ensures found.Some? ==> found.value < |builtinModules| && BuiltinHandle(found.value) == handle
      ensures found.None? ==> forall n :: 0 <= n < |builtinModules| ==> BuiltinHandle(n) != handle
    {
      for n := 0 to |builtinModules|
        invariant forall m :: 0 <= m < n ==> BuiltinHandle(m) != handle
      {
        if BuiltinHandle(n) == handle { return Some(n); }
      }
      return None;
    }

    // free_library: a reference someone holds is given back. The module goes exactly when
    // it was the last of all its references, static ones included.
    method FreeLibrary(handle: nat) returns (ok: bool, ghost holder: Holder, ghost log: seq<nat>)
      requires Valid()
      modifies this`modules, this`events, this`builtinRefcounts
      ensures Valid() && Evolves(old(modules), modules) && |modules| == |old(modules)|
      ensures events == old(events) + DetachEvents(log)
      ensures DetachedBy(old(modules), modules, log) && OwnersFirst(old(modules), log, 0)
      ensures old(HandleOf(holder, handle))
      ensures !ok ==> modules == old(modules) && builtinRefcounts == old(builtinRefcounts) && events == old(events)
      ensures ok <==> (holder.Guest? && old(modules)[holder.index].dynamicRefs > 0)
                      || (holder.Builtin? && old(builtinRefcounts)[holder.index] > 0)
      ensures ok && holder.Guest? ==>
                OneMore(modules, old(modules), Some(holder.index)) && builtinRefcounts == old(builtinRefcounts)
                && (modules[holder.index].Live() <==> old(modules)[holder.index].Refs() > 1)
                && (old(modules)[holder.index].Refs() > 1 ==>
                      events == old(events) && modules == HeldLessOnce(old(modules), holder.index))
                && (old(modules)[holder.index].Refs() == 1 ==> log != [] && log[0] == holder.index)
      ensures ok && holder.Builtin? ==>
                modules == old(modules) && events == old(events)
                && builtinRefcounts == old(builtinRefcounts)[holder.index := old(builtinRefcounts)[holder.index] - 1]
    {
      hide Consistent, Sound, AttachedClosed, Dependents;
      log := [];
      NothingDetached(modules);
      var found := FindModuleForHandle(handle);
      if found.Some? {
        var index := found.value;
        if modules[index].dynamicRefs == 0 { return false, Guest(index), log; }
        log := ReleaseDynamic(index);
        return true, Guest(index), log;
      }
      var known := FindBuiltinHandle(handle);
      if known.None? { return false, Nobody, log; }
      var n := known.value;
      if builtinRefcounts[n] == 0 { return false, Builtin(n), log; }
      builtinRefcounts := builtinRefcounts[n := builtinRefcounts[n] - 1];
      return true, Builtin(n), log;
    }

    method ReleaseDynamic(index: nat) returns (ghost log: seq<nat>)
      requires Valid() && index < |modules| && modules[index].Live() && modules[index].dynamicRefs > 0
      modifies this`modules, this`events
      ensures Valid() && Evolves(old(modules), modules) && |modules| == |old(modules)|
      ensures events == old(events) + DetachEvents(log)
      ensures DetachedBy(old(modules), modules, log) && OwnersFirst(old(modules), log, 0)
      ensures OneMore(modules, old(modules), Some(index))
      ensures modules[index].Live() <==> old(modules[index].Refs()) > 1
      ensures old(modules[index].Refs()) > 1 ==>
                events == old(events) && modules == HeldLessOnce(old(modules), index)
      ensures old(modules[index].Refs()) == 1 ==> log != [] && log[0] == index
    {
      hide Sound, AttachedClosed, Dependents, Resources, Evolves, Detaches, DetachedBy, OwnersFirst;
      ghost var before := modules;
      log := [];
      DetachesNothing(modules);
      CountDown(modules, rank, clock, index);
      var now := modules[index := modules[index].(dynamicRefs := modules[index].dynamicRefs - 1)];
      modules := now;
      SameResourcesSuffice(before, now, rejected, Listed(), page);
      ghost var empty: set<nat>, none: multiset<nat> := {}, multiset{};
      if modules[index].dynamicRefs == 0 && modules[index].staticRefs == 0 {
        NoRefsNoDependents(modules, rank, clock, empty, none, index);
        log := DetachModule(index, empty, none);
        RewindingEvolves(now, modules);
        RewindingKeepsResources(now, modules, rejected, Listed(), page);
      }
      DetachesAfterCount(before, now, modules, log, index);
      LetGo(before, now, modules, index);
      HeldLess(before, now, modules, index, tornDown);
    }

    ghost predicate NamesHandle(name: string, handle: nat)
      reads this`modules, this`builtinModules
    {
      && name != []
      && ((exists i :: 0 <= i < |modules| && Named(modules[i], name) && Owns(modules[i], handle))
          || (exists n :: BuiltinNamed(builtinModules, n, name) && handle == BuiltinHandle(n)))
    }

    ghost predicate Unknown(name: string)
      reads this`modules
    {
      || name == []
      || (!F.IsRegisteredForwarded(builtins, name)
          && forall i :: 0 <= i < |modules| ==> !(Named(modules[i], name) && modules[i].Live()))
    }

    // get_module_handle: a built-in module is given a handle the first time it is asked for.
    method GetModuleHandle(raw: string) returns (handle: nat)
      requires Valid()
      modifies this`builtinModules, this`builtinRefcounts
      ensures Valid() && old(builtinModules) <= builtinModules && old(builtinRefcounts) <= builtinRefcounts
      ensures forall n :: |old(builtinRefcounts)| <= n < |builtinRefcounts| ==> builtinRefcounts[n] == 0
      ensures if handle != 0 then NamesHandle(Normalize(raw), handle) else Unknown(Normalize(raw))
    {
      hide Consistent, F.IsRegisteredForwarded;
      var name := NormalizeModuleName(raw);
      if name == [] { return 0; }
      for i := 0 to |modules|
        invariant forall j :: 0 <= j < i ==> !(Named(modules[j], name) && modules[j].Live())
      {
        if Named(modules[i], name) && modules[i].Live() {
          LiveOwns(i);
          return modules[i].image.base;
        }
      }
      if !F.IsRegisteredForwarded(builtins, name) { return 0; }
      var n := BuiltinEntry(name);
      handle := BuiltinHandle(n);
    }

    lemma LiveOwns(i: nat)
      requires Consistent() && i < |modules| && modules[i].Live()
      ensures modules[i].image.At? && modules[i].image.base > 0
    {
    }

    // Which name get_proc_address looks a target up under, and from where: that of the module
    // the handle belongs to, or what the program forwards its export to. The program's own
    // exports and handle 0, which asks all built-in modules, need no name.
    ghost predicate Asks(handle: nat, target: Target, name: string, next: Target, directory: string)
      reads this`modules, this`main, this`mainDirectory, this`builtinModules
    {
      if handle == 0 then false
      else if IsProgram(handle) then
        match FirstExport(main.value.exports, target)
        case None => false
        case Some(e) => e.forward == ForwardTo(name, next) && directory == mainDirectory
      else next == target && AsksModule(handle, name, directory)
    }

    ghost predicate AsksModule(handle: nat, name: string, directory: string)
      reads this`modules, this`mainDirectory, this`builtinModules
    {
      || (exists i :: 0 <= i < |modules| && Owns(modules[i], handle)
                      && modules[i].name == name && modules[i].directory == directory)
      || ((forall i :: 0 <= i < |modules| ==> !Owns(modules[i], handle)) && directory == mainDirectory
          && exists n :: 0 <= n < |builtinModules| && BuiltinHandle(n) == handle && builtinModules[n] == name)
    }

    predicate IsProgram(handle: nat)
      reads this`main
    {
      main.Some? && main.value.image.At? && main.value.image.base == handle
    }

    // What the program itself exports.
    ghost function OwnExport(program: Program, target: Target): Lookup {
      match FirstExport(program.exports, target)
      case None => NOT_FOUND
      case Some(e) =>
        if !e.forward.NoForward? then NOT_FOUND
        else if program.image.At? && e.rva < program.image.size then Lookup(true, program.image.base + e.rva, None)
        else Lookup(true, 0, None)
    }

    // get_proc_address: a query on behalf of nobody. It may load modules, but takes no
    // reference and attaches nothing.
    method GetProcAddress(handle: nat, target: Target)
      returns (lookup: Lookup, ghost asked: Option<(string, Target, string)>)
      requires Valid()
      modifies this`modules, this`rejected, this`rank, this`clock, this`events
      ensures Valid() && Grows(old(modules), modules) && events == old(events) && old(rejected) <= rejected
      ensures match asked
              case Some((name, next, directory)) =>
                && old(Asks(handle, target, name, next, directory)) && Usable(lookup.index)
                && (lookup.found ==> Supplied(modules, builtins, Normalize(name), next, lookup.address, lookup.index,
                                              MAX_FORWARDER_DEPTH))
                && (if Askable(Normalize(name), next, [], 0)
                    then Answered(old(modules), old(rejected), modules, rejected, Normalize(name), next, directory, [],
                                  0, lookup)
                    else !lookup.found)
              case None =>
                && modules == old(modules) && rejected == old(rejected)
                && (forall name, next, directory :: !old(Asks(handle, target, name, next, directory)))
                && lookup == if handle == 0 then GlobalLookup(builtins, target)
                             else if IsProgram(handle) then OwnExport(main.value, target) else NOT_FOUND
    {
      hide Consistent, Supplied, Answered, Askable, Grows, Normalize, FirstExport, Held;
      GrowsItself(modules);
      asked := None;
      if handle == 0 {
        lookup := FindGlobal(target);
        return;
      }
      if IsProgram(handle) {
        var e := FindExport(main.value.exports, target);
        if e.None? { return NOT_FOUND, None; }
        match e.value.forward {
          case NoForward =>
            var image := main.value.image;
            lookup := Lookup(true, if e.value.rva < image.size then image.base + e.value.rva else 0, None);
          case BadForward => lookup := NOT_FOUND;
          case ForwardTo(dll, next) =>
            asked := Some((dll, next, mainDirectory));
            lookup := AskGraph(dll, next, mainDirectory);
        }
        return;
      }
      var found := FindModuleForHandle(handle);
      if found.Some? {
        asked := Some((modules[found.value].name, target, modules[found.value].directory));
        lookup := AskGraph(modules[found.value].name, target, modules[found.value].directory);
        return;
      }
      var known := FindBuiltinHandle(handle);
      if known.None? { return NOT_FOUND, None; }
      asked := Some((builtinModules[known.value], target, mainDirectory));
      lookup := AskGraph(builtinModules[known.value], target, mainDirectory);
    }

    method AskGraph(name: string, target: Target, directory: string) returns (lookup: Lookup)
      requires Valid()
      modifies this`modules, this`rejected, this`rank, this`clock, this`events
      ensures Valid() && Grows(old(modules), modules) && events == old(events) && old(rejected) <= rejected
      ensures Usable(lookup.index)
      ensures lookup.found ==> Supplied(modules, builtins, Normalize(name), target, lookup.address, lookup.index,
                                        MAX_FORWARDER_DEPTH)
      ensures if Askable(Normalize(name), target, [], 0)
              then Answered(old(modules), old(rejected), modules, rejected, Normalize(name), target, directory, [], 0,
                            lookup)
              else !lookup.found
    {
      hide Consistent, Supplied, Answered, Askable, Grows, Normalize, Held;
      SettledLoads();
      lookup := ResolveExport(name, target, directory, [], 0);
      BothParts();
      GrowingEvolves(old(modules), modules);
    }

    // direct_export of the program.
    static method FindExport(exports: seq<Export>, target: Target) returns (found: Option<Export>)
      ensures found == FirstExport(exports, target)
    {
      for k := 0 to |exports|
        invariant forall j :: 0 <= j < k ==> !Matches(exports[j], target)
      {
        if Matches(exports[k], target) {
          FirstExportAt(exports, target, k);
          return Some(exports[k]);
        }
      }
      FirstExportAt(exports, target, |exports|);
      return None;
    }

    // find_export_global and find_export_by_ordinal_global.
    method FindGlobal(target: Target) returns (lookup: Lookup)
      ensures lookup == GlobalLookup(builtins, target)
    {
      assert builtins[0..] == builtins;
      for k := 0 to |builtins|
        invariant GlobalLookup(builtins, target) == GlobalLookup(builtins[k..], target)
      {
        assert builtins[k..][1..] == builtins[k + 1..];
        var e := F.FindIn(builtins[k].exports, BuiltinQuery("", target));
        if e.Some? { return Lookup(true, e.value.address, None); }
      }
      return NOT_FOUND;
    }

    // The handle table of the built-in modules: an entry is found by name, or added.
    method BuiltinEntry(name: string) returns (n: nat)
      requires |builtinRefcounts| == |builtinModules|
      modifies this`builtinModules, this`builtinRefcounts
      ensures |builtinRefcounts| == |builtinModules| && BuiltinNamed(builtinModules, n, name)
      ensures old(builtinModules) <= builtinModules && |builtinModules| <= |old(builtinModules)| + 1
      ensures builtinRefcounts ==
              if |builtinModules| == |old(builtinModules)| then old(builtinRefcounts) else old(builtinRefcounts) + [0]
      ensures |builtinModules| > |old(builtinModules)| ==>
                n == |old(builtinModules)|
                && forall k :: 0 <= k < |old(builtinModules)| ==> !BuiltinNamed(old(builtinModules), k, name)
    {
      for k := 0 to |builtinModules|
        invariant forall m :: 0 <= m < k ==> !BuiltinNamed(builtinModules, m, name)
      {
        if BuiltinNamed(builtinModules, k, name) { return k; }
      }
      IEqualsReflexive(name);
      n := |builtinModules|;
      builtinModules := builtinModules + [name];
      builtinRefcounts := builtinRefcounts + [0];
    }

    // load_library. The first provider that can attach the module wins: a profile module
    // that cannot is rejected and the search starts over, which must end because every
    // new attempt leaves fewer names the profile may still provide.
    method LoadLibrary(raw: string) returns (handle: nat, ghost holder: Holder)
      requires Valid()
      modifies this`modules, this`rejected, this`rank, this`clock, this`events, this`builtinModules,
               this`builtinRefcounts
      ensures Valid() && Evolves(old(modules), modules) && old(events) <= events && old(rejected) <= rejected
      ensures old(builtinModules) <= builtinModules && |old(modules)| <= |modules|
      ensures OneMore(old(modules), modules, holder.GuestIndex())
      ensures OneMoreCount(old(builtinRefcounts), builtinRefcounts, holder.BuiltinIndex())
      ensures Given(handle, holder)
      ensures holder != Nobody && Normalize(Normalize(raw)) == Normalize(raw) ==> BearsName(holder, Normalize(raw))
      ensures holder == Nobody && Normalize(Normalize(raw)) == Normalize(raw) ==> Unavailable(Normalize(raw))
      ensures Normalize(raw) != [] ==> forall i :: AttachedNamed(old(modules), i, Normalize(raw), Profile) ==>
                holder == Guest(i) && builtinRefcounts == old(builtinRefcounts) && modules == HeldOnce(old(modules), i)
      ensures Normalize(raw) != [] && obliging && NoneOut(old(modules)) ==>
                && ServesLoadable(Profile, old(modules), old(rejected), modules, rejected, Normalize(raw),
                                  mainDirectory, holder.GuestIndex())
                && (!IsListed(Listed(), Normalize(raw)) ==>
                      ServesLoadable(DriveC, old(modules), old(rejected), modules, rejected, Normalize(raw),
                                     mainDirectory, holder.GuestIndex()))
      decreases Unrejected(Listed(), rejected)
    {
      hide Consistent, Evolves, OneMore, OneMoreCount, Held, F.IsRegisteredForwarded, Normalize, Unrejected, NoneOut;
      hide ServesLoadable, IEquals, Listed, IsListed, Resources, Settled;
      var name := NormalizeModuleName(raw);
      EvolvesNot(modules);
      SameCounts(builtinRefcounts);
      if name == [] { return 0, Nobody; }
      ghost var start, startRejected := modules, rejected;
      var found, ok := TryProvider(name, Profile);
      if !ok && obliging && NoneOut(start) {
        NothingToServe(Profile, start, startRejected, modules, rejected, name, mainDirectory);
      }
      if found.Some? {
        if ok { return modules[found.value].image.base, Guest(found.value); }
        RejectProfileModule(modules[found.value].name);
        FewerLeft(Listed(), old(rejected), rejected, modules[found.value].name);
        ghost var failed := modules;
        handle, holder := LoadLibrary(name);
        EvolvesCompose(old(modules), failed, modules);
        OneMoreCompose(old(modules), failed, modules, holder.GuestIndex());
        return;
      }
      ghost var middle, counts := modules, builtinRefcounts;
      handle, holder := LoadElsewhere(name);
      EvolvesCompose(old(modules), middle, modules);
      OneMoreCompose(old(modules), middle, modules, holder.GuestIndex());
    }

    // The rest of load_library, when the profile has no such module.
    method LoadElsewhere(name: string) returns (handle: nat, ghost holder: Holder)
      requires Valid() && name != []
      modifies this`modules, this`rejected, this`rank, this`clock, this`events, this`builtinModules,
               this`builtinRefcounts
      ensures Valid() && Evolves(old(modules), modules) && old(events) <= events && old(rejected) <= rejected
      ensures old(builtinModules) <= builtinModules && |old(modules)| <= |modules|
      ensures OneMore(old(modules), modules, holder.GuestIndex())
      ensures OneMoreCount(old(builtinRefcounts), builtinRefcounts, holder.BuiltinIndex())
      ensures Given(handle, holder) && (if holder != Nobody then BearsName(holder, name) else Unavailable(name))
      ensures obliging && NoneOut(old(modules)) ==>
                ServesLoadable(DriveC, old(modules), old(rejected), modules, rejected, name, mainDirectory,
                               holder.GuestIndex())
    {
      hide Consistent, Evolves, OneMore, OneMoreCount, Held, F.IsRegisteredForwarded, NoneOut, ServesLoadable, IEquals;
      hide Listed, IsListed;
      SameCounts(builtinRefcounts);
      ghost var start, given := modules, rejected;
      var found, ok := TryProvider(name, DriveC);
      if found.Some? {
        if !ok { return 0, Nobody; }
        return modules[found.value].image.base, Guest(found.value);
      }
      if obliging && NoneOut(start) { NothingToServe(DriveC, start, given, modules, rejected, name, mainDirectory); }
      if !F.IsRegisteredForwarded(builtins, name) { return 0, Nobody; }
      var n := HoldBuiltin(name);
      return BuiltinHandle(n), Builtin(n);
    }

    // The handle is that of the holder, if there is one.
    ghost predicate Given(handle: nat, holder: Holder)
      reads this`modules, this`builtinModules
    {
      match holder
      case Nobody => handle == 0
      case Guest(i) => handle != 0 && Serves(i, handle)
      case Builtin(n) => handle != 0 && n < |builtinModules| && handle == BuiltinHandle(n)
    }

    method HoldBuiltin(name: string) returns (n: nat)
      requires |builtinRefcounts| == |builtinModules|
      modifies this`builtinModules, this`builtinRefcounts
      ensures |builtinRefcounts| == |builtinModules| && BuiltinNamed(builtinModules, n, name)
      ensures old(builtinModules) <= builtinModules && OneMoreCount(old(builtinRefcounts), builtinRefcounts, Some(n))
    {
      n := BuiltinEntry(name);
      CountOne(old(builtinRefcounts), builtinRefcounts, n);
      builtinRefcounts := builtinRefcounts[n := builtinRefcounts[n] + 1];
    }

    method EnsureModule(name: string, provider: Provider) returns (found: Option<nat>)
      requires Valid()
      modifies this`modules, this`rejected, this`rank, this`clock, this`events
      ensures Valid() && Evolves(old(modules), modules) && OneMore(old(modules), modules, None)
      ensures |old(modules)| <= |modules| && events == old(events) && old(rejected) <= rejected
      ensures Usable(found) && (found.Some? ==> NamedLive(modules[found.value], name, provider))
      ensures provider == Profile ==>
                forall i :: 0 <= i < |old(modules)| && NamedFinished(old(modules)[i], name, Profile) ==>
                  found == Some(i) && modules == old(modules)
      ensures Grows(old(modules), modules)
      ensures ProviderOutcome(provider, old(modules), old(rejected), modules, rejected, name, mainDirectory, found)
    {
      hide Consistent, Evolves, OneMore, Held, Listed, ProfileOutcome, DriveOutcome;
      SettledLoads();
      match provider {
        case Profile => found := EnsureProfileModule(name);
        case DriveC => found := EnsureDriveModule(name, mainDirectory);
      }
      BothParts();
      GrowingEvolves(old(modules), modules);
    }

    ghost predicate ProviderOutcome(provider: Provider, before: Table, rejectedBefore: seq<string>, after: Table,
                                    rejectedAfter: seq<string>, name: string, directory: string, found: Option<nat>)
    {
      match provider
      case Profile => ProfileOutcome(before, rejectedBefore, after, rejectedAfter, name, found)
      case DriveC => DriveOutcome(before, rejectedBefore, after, rejectedAfter, name, directory, found)
    }

    ghost predicate LoadableFrom(provider: Provider, ms: Table, rejected: seq<string>, name: string, directory: string,
                                 info: DllInfo)
    {
      match provider
      case Profile => Loadable(ms, rejected, name, info)
      case DriveC => DriveLoadable(ms, name, directory, info)
    }

    // One provider's turn in load_library.
    method TryProvider(name: string, provider: Provider) returns (found: Option<nat>, ok: bool)
      requires Valid()
      modifies this`modules, this`rejected, this`rank, this`clock, this`events
      ensures Valid() && Evolves(old(modules), modules) && |old(modules)| <= |modules|
      ensures old(events) <= events && old(rejected) <= rejected
      ensures OneMore(old(modules), modules, if ok then found else None)
      ensures Outcome(found, ok, name, provider, old(rejected))
      ensures provider == Profile ==> forall i :: AttachedNamed(old(modules), i, name, Profile) ==>
                ok && found == Some(i) && modules == HeldOnce(old(modules), i)
      ensures provider == Profile && !IsListed(Listed(), name) ==>
                found.None? && modules == old(modules) && rejected == old(rejected)
      ensures obliging && NoneOut(old(modules)) ==>
                ServesLoadable(provider, old(modules), old(rejected), modules, rejected, name, mainDirectory,
                               if ok then found else None)
    {
      hide Consistent, Evolves, OneMore, Held, Listed, Resources, IEquals, IsListed, IsRejected, CannotServe, Serves;
      hide ProviderOutcome, ServesLoadable, NoneOut, AttachesOnly, Grows;
      found := EnsureModule(name, provider);
      ServedLater(provider, old(modules), old(rejected), modules, rejected, name, mainDirectory, found);
      if found.None? { return found, false; }
      ghost var middle := modules;
      var index := found.value;
      ResourcesOf();
      ok := HoldAndAttach(index);
      EvolvesCompose(old(modules), middle, modules);
      OneMoreCompose(old(modules), middle, modules, if ok then found else None);
      EvolvedName(middle, modules, index);
      ServedNow(provider, old(modules), old(rejected), middle, modules, rejected, name, mainDirectory, found, ok);
      if ok { HeldServes(index); }
      else if provider == Profile {
        GoneForGood(middle, index, old(rejected));
      }
    }

    // A module that can be loaded is loaded, attached, and bound to whoever offered its imports;
    // nothing else is loaded.
    ghost predicate ServesLoadable(provider: Provider, before: Table, rejectedBefore: seq<string>, after: Table,
                                   rejectedAfter: seq<string>, name: string, directory: string, served: Option<nat>)
    {
      forall info :: LoadableFrom(provider, before, rejectedBefore, name, directory, info) ==>
        && served == Some(|before|) && rejectedAfter == rejectedBefore && LoadedAs(before, after, info)
        && AttachedNamed(after, |before|, name, provider)
    }

    lemma NothingToServe(provider: Provider, before: Table, rejectedBefore: seq<string>, middle: Table,
                         rejectedThen: seq<string>, name: string, directory: string)
      requires ServesLoadable(provider, before, rejectedBefore, middle, rejectedThen, name, directory, None)
      ensures forall after, rejectedAfter, served ::
                ServesLoadable(provider, before, rejectedBefore, after, rejectedAfter, name, directory, served)
    {
      hide LoadableFrom;
    }

    ghost predicate LoadedAs(before: Table, after: Table, info: DllInfo) {
      NextIs(before, after, info) && Links(before, after, |before|) && IsSupplied(after, |before|) && NoneOut(after)
    }

    lemma ServedLater(provider: Provider, before: Table, rejectedBefore: seq<string>, after: Table,
                      rejectedAfter: seq<string>, name: string, directory: string, found: Option<nat>)
      requires ProviderOutcome(provider, before, rejectedBefore, after, rejectedAfter, name, directory, found)
      requires Grows(before, after)
      ensures NoneOut(before) ==> NoneOut(after)
      ensures provider == Profile && !IsListed(Listed(), name) ==>
                found.None? && after == before && rejectedAfter == rejectedBefore
      ensures obliging && found.None? ==>
                ServesLoadable(provider, before, rejectedBefore, after, rejectedAfter, name, directory, None)
    {
      hide Loadable, DriveLoadable, Links, ExcessKept, IsSupplied, ProfileDll, DriveDll, OnDrive, NamedFinished;
      if NoneOut(before) {
        forall i | 0 <= i < |after| ensures after[i].Live() && after[i].state != Resolving {
          if i < |before| { assert after[i] == before[i].(staticRefs := after[i].staticRefs); }
          else { assert NewlyLoaded(after[i]); }
        }
      }
    }

    lemma ServedNow(provider: Provider, before: Table, rejectedBefore: seq<string>, middle: Table, after: Table,
                    rejectedAfter: seq<string>, name: string, directory: string, found: Option<nat>, ok: bool)
      requires ProviderOutcome(provider, before, rejectedBefore, middle, rejectedAfter, name, directory, found)
      requires found.Some? && found.value < |middle| && (NoneOut(before) ==> NoneOut(middle))
      requires ok ==> AttachesOnly(HeldOnce(middle, found.value), after) && after[found.value].state == Attached
      requires NamedLive(middle[found.value], name, provider)
      requires obliging && NoneOut(middle) ==> ok
      ensures obliging && NoneOut(before) ==>
                ServesLoadable(provider, before, rejectedBefore, after, rejectedAfter, name, directory,
                               if ok then found else None)
    {
      hide Loadable, DriveLoadable, IEquals, NoneOut, LoadedAs, IsSupplied, Links, ProfileDll, DriveDll, OnDrive;
      if obliging && NoneOut(before) {
        NoneOutHeld(middle, found.value);
        NoneOutStays(HeldOnce(middle, found.value), after);
        forall info | LoadableFrom(provider, before, rejectedBefore, name, directory, info)
          ensures found == Some(|before|) && rejectedAfter == rejectedBefore && LoadedAs(before, after, info)
          ensures AttachedNamed(after, |before|, name, provider)
        {
          assert NextIs(before, middle, info);
          StillLoadedAs(before, middle, after, info);
        }
      }
    }

    // Holding and attaching the new module changes nothing of how it was loaded.
    lemma StillLoadedAs(before: Table, middle: Table, after: Table, info: DllInfo)
      requires NextIs(before, middle, info) && Links(before, middle, |before|) && IsSupplied(middle, |before|)
      requires AttachesOnly(HeldOnce(middle, |before|), after) && NoneOut(after)
      ensures LoadedAs(before, after, info)
    {
      hide SuppliesImport, AllSupplied, NoneOut, ProviderCount;
      assert SameExports(middle, after);
      StayAllSupplied(middle, after, builtins, info.imports, middle[|before|].bound);
    }

    lemma ResourcesOf()
      requires Consistent()
      ensures Resources(modules, rejected, Listed(), page)
    {
    }

    lemma HeldServes(i: nat)
      requires Consistent() && i < |modules| && modules[i].state == Attached && modules[i].dynamicRefs > 0
      ensures modules[i].image.At? && Serves(i, modules[i].image.base)
    {
    }

    ghost predicate Outcome(found: Option<nat>, ok: bool, name: string, provider: Provider, rejectedBefore: seq<string>)
      reads this`modules
    {
      && (ok ==> found.Some?)
      && (found.Some? ==>
            && found.value < |modules|
            && (ok ==> modules[found.value].image.At? && Serves(found.value, modules[found.value].image.base)
                       && Named(modules[found.value], name))
            && (!ok ==> Failed(modules[found.value], name, provider))
            && (!ok && provider == Profile ==> CannotServe(modules[found.value].name, rejectedBefore)))
    }

    // A profile module that could not be attached: its name was not rejected, and nobody
    // else bears it.
    ghost predicate CannotServe(name: string, rejectedBefore: seq<string>)
      reads this`modules
    {
      && IsListed(Listed(), name) && !IsRejected(rejectedBefore, name)
      && forall i :: 0 <= i < |modules| ==> !NamedLive(modules[i], name, Profile)
    }

    // No handle is given for a name nobody has, or whose drive_c module could not be attached.
    ghost predicate Unavailable(name: string)
      reads this`modules
    {
      name == [] || !F.IsRegisteredForwarded(builtins, name)
      || exists i :: 0 <= i < |modules| && Failed(modules[i], name, DriveC)
    }

    // A handle just given out: the module is attached and mapped there.
    ghost predicate Serves(i: nat, handle: nat)
      reads this`modules
    {
      i < |modules| && modules[i].state == Attached && Owns(modules[i], handle) && modules[i].dynamicRefs > 0
    }

    ghost predicate BearsName(holder: Holder, name: string)
      reads this`modules, this`builtinModules
    {
      match holder
      case Nobody => false
      case Guest(i) => i < |modules| && Named(modules[i], name)
      case Builtin(n) => BuiltinNamed(builtinModules, n, name) && F.IsRegisteredForwarded(builtins, name)
    }

    lemma GoneForGood(before: Table, index: nat, rejectedBefore: seq<string>)
      requires Consistent() && Evolves(before, modules) && index < |before| == |modules| && rejectedBefore <= rejected
      requires Resources(before, rejected, Listed(), page)
      requires before[index].provider == Profile && before[index].Live() && !modules[index].Live()
      ensures CannotServe(modules[index].name, rejectedBefore)
    {
      RejectedStays(rejectedBefore, rejected);
      var name := modules[index].name;
      assert Evolved(before[index], modules[index]);
      IEqualsReflexive(name);
      assert NamedLive(before[index], name, Profile);
      NameFacts(before, rejected, Listed(), page, name, Profile);
      forall i | 0 <= i < |modules| ensures !NamedLive(modules[i], name, Profile) {
        assert Evolved(before[i], modules[i]);
        if NamedLive(modules[i], name, Profile) { assert NamedLive(before[i], name, Profile); }
      }
    }

    // ------------------------------------------------------------ start and end of the process

    // process_detach: every module is detached, in table order, whoever refers to it. Each
    // attached one is told once. One that depends on another is told before it, unless it is
    // held until the place of the other in the table.
    method ProcessDetach() returns (ghost log: seq<nat>)
      requires Valid()
      modifies this`modules, this`events, this`tornDown
      ensures Valid() && tornDown && OnlyDetaches(old(modules), modules) && SameIdentities(old(modules), modules)
      ensures forall i :: 0 <= i < |modules| ==> modules[i].state != Attached
      ensures events == old(events) + DetachEvents(log) && DetachedInOrder(old(modules), log)
    {
      hide Sound, AttachedClosed, Resources, SameIdentities, DetachedInOrder;
      tornDown := true;
      log := DetachAll();
      RewindingKeepsResources(old(modules), modules, rejected, Listed(), page);
      NothingAttached(modules);
      HeldAfterDetach(old(modules), modules, old(tornDown));
    }

    method DetachAll() returns (ghost log: seq<nat>)
      requires Sound(modules, rank, clock, {}, multiset{}) && AttachedCounted(modules, -1)
      modifies this`modules, this`events
      ensures Sound(modules, rank, clock, {}, multiset{}) && AttachedCounted(modules, -1)
      ensures OnlyDetaches(old(modules), modules) && SameIdentities(old(modules), modules)
      ensures forall i :: 0 <= i < |modules| ==> modules[i].state != Attached
      ensures events == old(events) + DetachEvents(log) && DetachedInOrder(old(modules), log)
    {
      hide Sound, AttachedClosed, Dependents, Detaches, DetachingSoFar, DetachedInOrder, Ranked;
      ghost var empty: set<nat>, none: multiset<nat> := {}, multiset{};
      log := [];
      DetachingStarts(modules, rank, clock);
      for k := 0 to |modules|
        invariant Sound(modules, rank, clock, {}, multiset{}) && AttachedCounted(modules, -1)
        invariant OnlyDetaches(old(modules), modules) && SameIdentities(old(modules), modules)
        invariant forall i :: 0 <= i < k ==> modules[i].state != Attached
        invariant events == old(events) + DetachEvents(log) && DetachingSoFar(old(modules), modules, log, k)
      {
        ghost var before := modules;
        ghost var turn := DetachModule(k, empty, none);
        DetachedKeepsIdentities(old(modules), before, modules, k);
        DetachingOn(old(modules), before, modules, rank, clock, k, log, turn);
        DetachEventsAppend(log, turn);
        log := log + turn;
      }
      DetachingEnds(old(modules), modules, rank, clock, log);
    }

    // discard_loaded_modules: everything goes, the handles of built-in modules included.
    method DiscardLoadedModules() returns (ghost log: seq<nat>)
      requires page > 0 && Sound(modules, rank, clock, {}, multiset{}) && AttachedCounted(modules, -1)
      requires PageMultiple(page, MAX_MAPPED_BYTES)
      modifies this`modules, this`events, this`tornDown, this`builtinModules, this`builtinRefcounts, this`rank,
               this`clock
      ensures Valid() && modules == [] && builtinModules == [] && !tornDown
      ensures events == old(events) + DetachEvents(log) && DetachedInOrder(old(modules), log)
    {
      hide *;
      log := DetachAll();
      modules, builtinModules, builtinRefcounts := [], [], [];
      rank, clock, tornDown := [], 0, false;
      EmptyIsValid();
    }

    lemma EmptyIsValid()
      requires page > 0 && PageMultiple(page, MAX_MAPPED_BYTES)
      requires modules == [] && rank == [] && builtinModules == [] && builtinRefcounts == []
      ensures Valid()
    {
    }

    method Reset() returns (ghost log: seq<nat>)
      requires Valid()
      modifies this`modules, this`events, this`tornDown, this`builtinModules, this`builtinRefcounts, this`rank,
               this`clock, this`main
      ensures Valid() && modules == [] && builtinModules == [] && main == None && !tornDown
      ensures events == old(events) + DetachEvents(log) && DetachedInOrder(old(modules), log)
    {
      hide DetachedInOrder, Sound, AttachedCounted;
      LimitFacts();
      log := DiscardLoadedModules();
      main := None;
    }

    lemma LimitFacts()
      requires Consistent()
      ensures page > 0 && PageMultiple(page, MAX_MAPPED_BYTES)
      ensures Sound(modules, rank, clock, {}, multiset{}) && AttachedCounted(modules, -1)
    {
    }

    // All profile modules of the table, alive or not, are rejected.
    method RejectProfileModules()
      modifies this`rejected
      ensures old(rejected) <= rejected
      ensures forall i :: 0 <= i < |modules| && modules[i].provider == Profile ==> IsRejected(rejected, modules[i].name)
    {
      hide IsRejected;
      for k := 0 to |modules|
        invariant old(rejected) <= rejected
        invariant forall i :: 0 <= i < k && modules[i].provider == Profile ==> IsRejected(rejected, modules[i].name)
      {
        if modules[k].provider == Profile {
          ghost var before := rejected;
          RejectProfileModule(modules[k].name);
          RejectedStays(before, rejected);
        }
      }
    }

    // The loop of process_attach over the table: every referenced module is attached, up
    // to the first that cannot be.
    method AttachReferenced() returns (failed: Option<nat>)
      requires Valid()
      modifies this`modules, this`events
      ensures Valid() && Evolves(old(modules), modules) && |modules| == |old(modules)| && old(events) <= events
      ensures failed.None? ==> ReferencedAttached(modules, |modules|)
      ensures failed.Some? ==> failed.value < |modules| && FailedToAttach(failed.value)
    {
      hide Consistent, Held, Evolves, ReferencedAttached;
      EvolvesNot(modules);
      NoneReferenced(modules);
      for k := 0 to |modules|
        invariant Valid() && Evolves(old(modules), modules) && |modules| == |old(modules)| && old(events) <= events
        invariant ReferencedAttached(modules, k)
      {
        ghost var before := modules;
        if modules[k].Live() && modules[k].Refs() > 0 {
          var ok := AttachOne(k);
          EvolvesCompose(old(modules), before, modules);
          if !ok { return Some(k); }
        }
        OneMoreAttached(before, modules, k);
      }
      return None;
    }

    method AttachOne(k: nat) returns (ok: bool)
      requires Valid() && k < |modules| && modules[k].Live() && modules[k].Refs() > 0
      modifies this`modules, this`events
      ensures Valid() && Evolves(old(modules), modules) && |modules| == |old(modules)| && old(events) <= events
      ensures ok ==> modules[k].state == Attached && AttachesOnly(old(modules), modules)
      ensures !ok ==> FailedToAttach(k)
    {
      hide Held, Evolves, Rewinds, InOrder, Sound, Resources, AttachedClosed, AttachEvents;
      ghost var before := modules;
      NotRejectedYet(k);
      ghost var log;
      ok, log := AttachModule(k);
      RewindingEvolves(before, modules);
      RewindingKeepsResources(before, modules, rejected, Listed(), page);
      EvolvedName(before, modules, k);
      if ok { AttachedByOnly(before, modules, log); }
    }

    // A module that could not be attached is out; if it came from the profile, its name was
    // one the profile could still provide.
    ghost predicate FailedToAttach(k: nat)
      reads this`modules, this`rejected
    {
      && k < |modules| && !modules[k].Live()
      && (modules[k].provider == Profile ==>
        IsListed(Listed(), modules[k].name) && !IsRejected(rejected, modules[k].name))
    }

    lemma NotRejectedYet(k: nat)
      requires Consistent() && k < |modules| && modules[k].Live()
      ensures modules[k].provider == Profile ==>
                IsListed(Listed(), modules[k].name) && !IsRejected(rejected, modules[k].name)
    {
    }

    // process_attach: every referenced module is attached. When a profile module cannot be,
    // the whole profile part is given up and the main image is resolved again; each such
    // attempt leaves fewer names the profile may provide.
    method ProcessAttach() returns (ok: bool, ghost retries: nat)
      requires Valid()
      modifies this`modules, this`rejected, this`rank, this`clock, this`events, this`tornDown,
               this`builtinModules, this`builtinRefcounts
      ensures Valid() && old(rejected) <= rejected && old(events) <= events
      ensures ok ==> ReferencedAttached(modules, |modules|)
      ensures rejected == old(rejected) ==> Evolves(old(modules), modules)
      ensures retries + Unrejected(Listed(), rejected) <= Unrejected(Listed(), old(rejected)) <= |profile|
    {
      hide Consistent, Held, Evolves, Grows, Bound, AllResolved, ReferencedAttached, Unrejected, DetachedInOrder;
      EvolvesNot(modules);
      retries := 0;
      AtMostListed(Listed(), rejected);
      while true
        invariant retries + Unrejected(Listed(), rejected) <= Unrejected(Listed(), old(rejected))
        invariant Valid() && old(rejected) <= rejected && old(events) <= events
        invariant rejected == old(rejected) ==> modules == old(modules)
        decreases Unrejected(Listed(), rejected)
      {
        var failed := AttachReferenced();
        if failed.None? { return true, retries; }
        if modules[failed.value].provider != Profile { return false, retries; }
        var resolved := GiveUpProfile(failed.value);
        if !resolved { return false, retries; }
        retries := retries + 1;
      }
    }

    // One retry: every profile module is rejected, everything is discarded, and the main image
    // takes its imports from what is left.
    method GiveUpProfile(failed: nat) returns (resolved: bool)
      requires Valid() && FailedToAttach(failed) && modules[failed].provider == Profile
      modifies this`modules, this`rejected, this`rank, this`clock, this`events, this`tornDown,
               this`builtinModules, this`builtinRefcounts
      ensures Valid() && old(rejected) <= rejected && old(events) <= events && rejected != old(rejected)
      ensures Unrejected(Listed(), rejected) < Unrejected(Listed(), old(rejected))
    {
      hide Consistent, Held, Grows, Bound, AllResolved, Unrejected, DetachedInOrder, AllSupplied, FromOfferers, Nested;
      hide IsListed, IsRejected;
      ghost var before := rejected;
      LimitFacts();
      RejectProfileModules();
      FewerLeft(Listed(), before, rejected, modules[failed].name);
      ghost var given := rejected;
      ghost var log := DiscardLoadedModules();
      if main.None? { return false; }
      SettledLoads();
      var entries;
      resolved, entries := ResolveImportsForModule(None, main.value.imports, mainDirectory);
      BothParts();
      GrowsForNoOwner([], modules);
      GrowingEvolves([], modules);
      NoMoreLeft(Listed(), given, rejected);
    }

    // Any number of calls, in any order.
    method Run(operations: seq<Operation>)
      requires Valid()
      modifies this
      ensures Valid()
    {
      for k := 0 to |operations|
        invariant Valid()
      {
        match operations[k] {
          case Resolve(program, directory) => var _, _ := ResolveImports(program, directory);
          case ProcessAttaches => var _, _ := ProcessAttach();
          case LoadsLibrary(name) => var _, _ := LoadLibrary(name);
          case FreesLibrary(handle) => var _, _, _ := FreeLibrary(handle);
          case GetsHandle(name) => var _ := GetModuleHandle(name);
          case GetsAddress(handle, target) => var _, _ := GetProcAddress(handle, target);
          case ProcessDetaches => var _ := ProcessDetach();
          case Resets => var _ := Reset();
        }
      }
    }

    // What the invariant means: reference counts cover the modules that depend on them, ...
    lemma CountsCoverDependents(d: nat)
      requires Valid() && d < |modules|
      ensures modules[d].staticRefs >= |Dependents(modules, {}, d)|
    {
    }

    // ... no chain of dependencies leads back to where it started, ...
    lemma NeverCyclic(path: seq<nat>)
      requires Valid() && Path(modules, path) && |path| > 1
      ensures path[0] != path[|path| - 1]
    {
      DependenciesAreAcyclic(modules, rank, clock, path);
    }

    // ... whatever a module that is in use reaches is attached and mapped, ...
    lemma InUseIsMapped(path: seq<nat>)
      requires Valid() && Path(modules, path)
      requires modules[path[0]].state == Attached || (modules[path[0]].dynamicRefs > 0 && !tornDown)
      ensures var m := modules[path[|path| - 1]]; m.state == Attached && m.image.At?
    {
      AttachedReachesMapped(modules, path);
    }

    // ... what it imports directly lies in an attached guest or a built-in module, unless a
    // module it depends on forwards it: then only that module is sure to stay, ...
    lemma ImportsAreMapped(i: nat, k: nat)
      requires Valid() && i < |modules| && modules[i].state == Attached && k < |modules[i].info.imports|
      ensures k < |modules[i].bound| && modules[i].bound[k].address != 0
      ensures modules[i].bound[k].provider.Some? ==>
        var d := modules[i].bound[k].provider.value;
        && d < |modules| && (d == i || d in modules[i].dependencies) && modules[d].state == Attached
        && (LiesIn(modules[d], modules[i].bound[k].address)
            || LeadsElsewhere(modules[d], modules[i].info.imports[k].target))
    {
      BoundIsMapped(modules, i, k);
    }

    // ... and the limits hold, with mappings of whole pages that do not overlap.
    lemma LimitsHold()
      requires Valid()
      ensures |modules| <= 256 && TotalMapped(modules) <= 2 * 1024 * 1024 * 1024
      ensures forall i, j :: 0 <= i < j < |modules| ==> Apart(modules[i].image, modules[j].image)
    {
    }
  }
}
