// The table of loaded guest modules and what must be true of it
// (the records of src/loader/module_graph.cpp and the facts its methods rely on).
module GraphState {
  import opened Ascii
  import opened ImageMapper

  const MAX_LOADED_MODULES: nat := 256
  const MAX_MAPPED_BYTES: nat := 0x8000_0000

  datatype Option<+T> = None | Some(value: T)

  datatype Provider = Profile | DriveC

  datatype State = Resolving | Ready | Attaching | Attached | Rejected | Unloaded

  datatype Target = NamedExport(symbol: string) | OrdinalExport(ordinal: nat)

  // The forwarder text of an export, already parsed.
  datatype Forward = NoForward | BadForward | ForwardTo(dll: string, target: Target)

  datatype Export = Export(byName: bool, name: string, ordinal: nat, rva: nat, forward: Forward)

  datatype Import = Import(dll: string, target: Target, slot: nat)

  // imports lists the static imports followed by the delayed ones.
  datatype DllInfo = DllInfo(sizeOfImage: nat, imports: seq<Import>, exports: seq<Export>)

  // An import as it was resolved: its address, and the guest module that answered, if any.
  datatype ResolvedImport = ResolvedImport(resolved: bool, address: nat, provider: Option<nat>)

  datatype Image = Unmapped | At(base: nat, size: nat)

  // bound is what the import table in the module's memory holds once it is ready.
  datatype LoadedModule = LoadedModule(
    name: string, provider: Provider, directory: string, info: DllInfo, image: Image, state: State,
    staticRefs: nat, dynamicRefs: nat, dependencies: seq<nat>, bound: seq<ResolvedImport>)
  {
    predicate Live() { state != Rejected && state != Unloaded }

    function Refs(): nat { staticRefs + dynamicRefs }

    function MappedBytes(): nat { if image.At? then image.size else 0 }
  }

  type Table = seq<LoadedModule>

  // ---------------------------------------------------------------- invariants

  ghost predicate EdgesInRange(ms: Table) {
    forall i: nat, d: nat {:trigger d in ms[i].dependencies} :: i < |ms| && d in ms[i].dependencies ==> d < |ms|
  }

  predicate Distinct(xs: seq<nat>) { forall j, k :: 0 <= j < k < |xs| ==> xs[j] != xs[k] }

  ghost predicate EdgesDistinct(ms: Table) { forall i :: 0 <= i < |ms| ==> Distinct(ms[i].dependencies) }

  // Modules are ranked by when they finished resolving; edges lead to finished modules of
  // lower rank. A module that is still resolving has no rank yet.
  ghost predicate Ranked(ms: Table, rank: seq<nat>, clock: nat) {
    && |rank| == |ms| && EdgesInRange(ms)
    && (forall i :: 0 <= i < |ms| && ms[i].state != Resolving ==> rank[i] < clock)
    && (forall i: nat, d: nat {:trigger d in ms[i].dependencies} :: i < |ms| && d in ms[i].dependencies ==>
          ms[d].state != Resolving)
    && (forall i: nat, d: nat {:trigger d in ms[i].dependencies} ::
          i < |ms| && ms[i].state != Resolving && d in ms[i].dependencies ==> rank[d] < rank[i])
  }

  // The live modules that list d, not counting those whose edges are being given up.
  ghost function Dependents(ms: Table, leaving: set<nat>, d: nat): set<nat> {
    set i: nat | i < |ms| && i !in leaving && ms[i].Live() && d in ms[i].dependencies
  }

  // Each module's static count covers its dependents and the releases still due to it.
  ghost predicate RefsCover(ms: Table, leaving: set<nat>, due: multiset<nat>) {
    forall d :: 0 <= d < |ms| ==> ms[d].staticRefs >= |Dependents(ms, leaving, d)| + due[d]
  }

  ghost predicate MappedWhileLive(ms: Table) {
    forall i :: 0 <= i < |ms| ==> (ms[i].image.At? <==> ms[i].Live())
  }

  // An attached module is referenced by someone, except perhaps the one being detached.
  ghost predicate AttachedCounted(ms: Table, except: int) {
    forall i :: 0 <= i < |ms| && i != except && ms[i].state == Attached ==> ms[i].Refs() > 0
  }

  ghost predicate AttachedClosed(ms: Table) {
    forall i: nat, d: nat {:trigger d in ms[i].dependencies} ::
      i < |ms| && ms[i].state == Attached && d in ms[i].dependencies ==> d < |ms| && ms[d].state == Attached
  }

  // Modules that give up their edges are on their way out, never attached.
  ghost predicate LeavingNotAttached(ms: Table, leaving: set<nat>) {
    forall i :: i in leaving ==> i < |ms| && ms[i].state != Attached
  }

  predicate Matches(e: Export, target: Target) {
    match target
    case NamedExport(symbol) => e.byName && e.name == symbol
    case OrdinalExport(ordinal) => e.ordinal == ordinal
  }

  // The export a module offers for a target: the first that matches.
  function FirstExport(exports: seq<Export>, target: Target): Option<Export> {
    if exports == [] then None
    else if Matches(exports[0], target) then Some(exports[0])
    else FirstExport(exports[1..], target)
  }

  function ExportAddress(m: LoadedModule, rva: nat): nat {
    if m.image.At? && rva < m.image.size then m.image.base + rva else 0
  }

  // The module exports the target: itself, at this address while it is mapped, or by a
  // forwarder.
  ghost predicate AnswersAt(m: LoadedModule, target: Target, address: nat) {
    match FirstExport(m.info.exports, target)
    case None => false
    case Some(e) =>
      match e.forward
      case NoForward => m.image.At? ==> address == ExportAddress(m, e.rva)
      case BadForward => false
      case ForwardTo(_, _) => true
  }

  // The answer came from a built-in module, the module itself, or one it depends on.
  ghost predicate SlotBound(ms: Table, i: nat, k: nat)
    requires i < |ms|
  {
    && k < |ms[i].bound| == |ms[i].info.imports| && ms[i].bound[k].resolved && ms[i].bound[k].address != 0
    && match ms[i].bound[k].provider
       case None => true
       case Some(d) =>
         d < |ms| && (d == i || d in ms[i].dependencies)
         && AnswersAt(ms[d], ms[i].info.imports[k].target, ms[i].bound[k].address)
  }

  ghost predicate SlotsBound(ms: Table, i: nat)
    requires i < |ms|
  {
    |ms[i].bound| == |ms[i].info.imports| && forall k: nat :: k < |ms[i].info.imports| ==> SlotBound(ms, i, k)
  }

  ghost predicate Bindable(m: LoadedModule) { m.Live() && m.state != Resolving }

  // All imports of modules that have finished loading are bound.
  ghost predicate ImportsBound(ms: Table) {
    forall i: nat :: i < |ms| && Bindable(ms[i]) ==> SlotsBound(ms, i)
  }

  ghost predicate Sound(ms: Table, rank: seq<nat>, clock: nat, leaving: set<nat>, due: multiset<nat>) {
    && Ranked(ms, rank, clock) && EdgesDistinct(ms) && RefsCover(ms, leaving, due)
    && MappedWhileLive(ms) && LeavingNotAttached(ms, leaving) && ImportsBound(ms)
  }

  predicate IsRejected(rejected: seq<string>, name: string) {
    exists k :: 0 <= k < |rejected| && IEquals(rejected[k], name)
  }

  predicate IsListed(listed: seq<string>, name: string) {
    exists k :: 0 <= k < |listed| && IEquals(listed[k], name)
  }

  // Live modules of one provider have different names, every profile module is one the
  // profile lists, and no live one bears a rejected name.
  ghost predicate NamesKept(ms: Table, rejected: seq<string>, listed: seq<string>) {
    && (forall i :: 0 <= i < |ms| && ms[i].provider == Profile ==> IsListed(listed, ms[i].name))
    && (forall i, j :: 0 <= i < j < |ms| && ms[i].Live() && ms[j].Live() && ms[i].provider == ms[j].provider ==>
          !IEquals(ms[i].name, ms[j].name))
    && (forall i :: 0 <= i < |ms| && ms[i].Live() && ms[i].provider == Profile ==> !IsRejected(rejected, ms[i].name))
  }

  function TotalMapped(ms: Table): nat {
    if ms == [] then 0 else TotalMapped(ms[..|ms| - 1]) + ms[|ms| - 1].MappedBytes()
  }

  predicate PageMultiple(page: nat, size: nat) { page > 0 && size % page == 0 }

  ghost predicate WithinLimits(ms: Table, page: nat) {
    && |ms| <= MAX_LOADED_MODULES && TotalMapped(ms) <= MAX_MAPPED_BYTES
    && PageMultiple(page, MAX_MAPPED_BYTES)
    && (forall i :: 0 <= i < |ms| ==> PageMultiple(page, ms[i].MappedBytes()))
  }

  predicate Apart(a: Image, b: Image) {
    a.At? && b.At? ==> a.base + a.size <= b.base || b.base + b.size <= a.base
  }

  // Mappings have addresses and do not overlap.
  ghost predicate MappingsApart(ms: Table) {
    && (forall i :: 0 <= i < |ms| && ms[i].image.At? ==> ms[i].image.base > 0 && ms[i].image.size > 0)
    && (forall i, j :: 0 <= i < j < |ms| ==> Apart(ms[i].image, ms[j].image))
  }

  // What a table satisfies besides its counts and edges.
  ghost predicate Resources(ms: Table, rejected: seq<string>, listed: seq<string>, page: nat) {
    NamesKept(ms, rejected, listed) && WithinLimits(ms, page) && MappingsApart(ms)
  }

  ghost predicate Settled(ms: Table) {
    forall i :: 0 <= i < |ms| ==> ms[i].state != Resolving && ms[i].state != Attaching
  }

  // ---------------------------------------------------------------- how tables change

  // Attaching and detaching: records keep their identity, and a mapping is kept or dropped.
  ghost predicate SameIdentity(a: LoadedModule, b: LoadedModule) {
    && b.name == a.name && b.provider == a.provider && b.directory == a.directory && b.info == a.info
    && b.bound == a.bound && b.dynamicRefs == a.dynamicRefs && (b.image == a.image || b.image == Unmapped)
    && (b.Live() ==> a.Live())
  }

  predicate Allowed(s: State, t: State) {
    s == t || (s == Ready && t in {Attached, Rejected, Unloaded}) || (s == Attached && t == Unloaded)
  }

  // What attaching and detaching may do to the record of a module that takes no active part.
  ghost predicate Rewound(a: LoadedModule, b: LoadedModule) {
    && SameIdentity(a, b) && Allowed(a.state, b.state) && b.staticRefs <= a.staticRefs
    && (b.dependencies == a.dependencies || (b.state == Rejected && a.state != Rejected))
    && (b.state == Unloaded && a.state != Unloaded ==> b.Refs() == 0)
  }

  ghost predicate Rewinds(before: Table, after: Table) {
    |after| == |before| && forall i :: 0 <= i < |before| ==> Rewound(before[i], after[i])
  }

  lemma RewindsCompose(a: Table, b: Table, c: Table)
    requires Rewinds(a, b) && Rewinds(b, c)
    ensures Rewinds(a, c)
  {
    forall i | 0 <= i < |a| ensures Rewound(a[i], c[i]) {
      assert Rewound(a[i], b[i]) && Rewound(b[i], c[i]);
    }
  }

  // What detaching a module does: it is unloaded, and what it depended on may follow.
  ghost predicate DetachedOne(before: Table, after: Table, index: nat) {
    && index < |before| == |after| && SameIdentity(before[index], after[index]) && after[index].state == Unloaded
    && after[index].staticRefs <= before[index].staticRefs && after[index].dependencies == before[index].dependencies
    && forall i :: 0 <= i < |after| && i != index ==> Rewound(before[i], after[i])
  }

  // Attaching that succeeds only turns ready modules into attached ones.
  ghost predicate AttachesOnly(before: Table, after: Table) {
    |after| == |before| && forall i :: 0 <= i < |before| ==>
      after[i] == before[i] || (before[i].state == Ready && after[i] == before[i].(state := Attached))
  }

  predicate NewlyLoaded(m: LoadedModule) { m.state == Ready && m.dynamicRefs == 0 }

  // By how much the static count of d exceeds the number of modules that depend on it: the
  // imports of the main image, and what failed loads have left behind.
  ghost function Excess(ms: Table, d: nat): int
    requires d < |ms|
  {
    ms[d].staticRefs - |Dependents(ms, {}, d)|
  }

  ghost predicate ExcessKept(before: Table, after: Table) {
    |before| <= |after| && forall d: nat :: d < |before| ==> Excess(before, d) <= Excess(after, d)
  }

  // Loading: earlier records are untouched except that more may refer to them, no fewer
  // references than dependents, and every new record is ready to be attached.
  ghost predicate Grows(before: Table, after: Table) {
    && ExcessKept(before, after)
    && (forall i :: 0 <= i < |before| ==>
          after[i] == before[i].(staticRefs := after[i].staticRefs) && before[i].staticRefs <= after[i].staticRefs)
    && (forall i :: |before| <= i < |after| ==> NewlyLoaded(after[i]))
  }

  // ---------------------------------------------------------------- consequences

  // In a settled table edges never form a cycle: along a path of edges ranks go down.
  ghost predicate Path(ms: Table, path: seq<nat>) {
    && path != [] && (forall k :: 0 <= k < |path| ==> path[k] < |ms|)
    && forall k :: 0 <= k < |path| - 1 ==> path[k + 1] in ms[path[k]].dependencies
  }

  lemma {:induction false} RanksFall(ms: Table, rank: seq<nat>, clock: nat, path: seq<nat>)
    requires Ranked(ms, rank, clock) && Settled(ms) && Path(ms, path) && |path| > 1
    ensures rank[path[|path| - 1]] < rank[path[0]]
  {
    assert path[0 + 1] in ms[path[0]].dependencies;
    if |path| > 2 {
      var rest := path[1..];
      forall k | 0 <= k < |rest| - 1 ensures rest[k + 1] in ms[rest[k]].dependencies {
        assert path[(k + 1) + 1] in ms[path[k + 1]].dependencies;
      }
      RanksFall(ms, rank, clock, rest);
    }
  }

  lemma DependenciesAreAcyclic(ms: Table, rank: seq<nat>, clock: nat, path: seq<nat>)
    requires Ranked(ms, rank, clock) && Settled(ms) && Path(ms, path) && |path| > 1
    ensures path[0] != path[|path| - 1]
  {
    RanksFall(ms, rank, clock, path);
  }

  // Whatever an attached module depends on, directly or not, is attached and mapped.
  lemma {:induction false} AttachedReachesMapped(ms: Table, path: seq<nat>)
    requires AttachedClosed(ms) && MappedWhileLive(ms) && Path(ms, path) && ms[path[0]].state == Attached
    ensures ms[path[|path| - 1]].state == Attached && ms[path[|path| - 1]].image.At?
  {
    if |path| > 1 {
      assert path[0 + 1] in ms[path[0]].dependencies;
      var rest := path[1..];
      forall k | 0 <= k < |rest| - 1 ensures rest[k + 1] in ms[rest[k]].dependencies {
        assert path[(k + 1) + 1] in ms[path[k + 1]].dependencies;
      }
      AttachedReachesMapped(ms, rest);
    }
  }

  // ---------------------------------------------------------------- sets of dependents

  lemma DependentsShrink(a: Table, b: Table, la: set<nat>, lb: set<nat>, d: nat)
    requires |b| <= |a|
    requires forall i :: 0 <= i < |b| && b[i].Live() && i !in lb && d in b[i].dependencies ==>
      i !in la && a[i].Live() && d in a[i].dependencies
    ensures Dependents(b, lb, d) <= Dependents(a, la, d)
    ensures |Dependents(b, lb, d)| <= |Dependents(a, la, d)|
  {
    SubsetSize(Dependents(b, lb, d), Dependents(a, la, d));
  }

  lemma {:induction false} SubsetSize(a: set<nat>, b: set<nat>)
    requires a <= b
    ensures |a| <= |b|
    decreases a
  {
    if a != {} {
      var x :| x in a;
      SubsetSize(a - {x}, b - {x});
    }
  }

  // ---------------------------------------------------------------- imports

  ghost predicate KeepsBinding(a: LoadedModule, b: LoadedModule) {
    Bindable(a) && b.bound == a.bound && b.info == a.info && b.dependencies == a.dependencies
  }

  ghost predicate KeepsExports(a: LoadedModule, b: LoadedModule) {
    b.info == a.info && (b.image == a.image || b.image == Unmapped)
  }

  // Imports stay bound while modules keep their exports, and their mappings or lose them.
  lemma ImportsStayBound(a: Table, b: Table)
    requires ImportsBound(a) && EdgesInRange(b)
    requires forall i :: 0 <= i < |b| && Bindable(b[i]) ==> i < |a| && KeepsBinding(a[i], b[i])
    requires forall i :: 0 <= i < |a| && i < |b| ==> KeepsExports(a[i], b[i])
    ensures ImportsBound(b)
  {
    hide FirstExport;
    forall i: nat | i < |b| && Bindable(b[i]) ensures SlotsBound(b, i) {
      assert SlotsBound(a, i);
      forall k: nat | k < |b[i].info.imports| ensures SlotBound(b, i, k) {
        assert SlotBound(a, i, k);
        if b[i].bound[k].provider.Some? {
          var d := b[i].bound[k].provider.value;
          assert d == i || d in b[i].dependencies;
          assert KeepsExports(a[d], b[d]);
        }
      }
    }
  }

  // A module that starts to leave owes one release to each module it lists.
  lemma StartLeaving(ms: Table, rank: seq<nat>, clock: nat, leaving: set<nat>, due: multiset<nat>, i: nat)
    requires Sound(ms, rank, clock, leaving, due) && i < |ms| && i !in leaving
    requires ms[i].Live() && ms[i].state != Attached
    ensures Sound(ms, rank, clock, leaving + {i}, due + multiset(ms[i].dependencies))
  {
    var deps := ms[i].dependencies;
    var owed: multiset<nat> := due + multiset(deps);
    forall d: nat | d < |ms|
      ensures ms[d].staticRefs >= |Dependents(ms, leaving + {i}, d)| + owed[d]
    {
      DistinctMultiplicity(deps, d);
      var was, now := Dependents(ms, leaving, d), Dependents(ms, leaving + {i}, d);
      assert now == was - {i};
      if d in deps { assert i in was; }
    }
  }

  lemma {:induction false} DistinctMultiplicity(xs: seq<nat>, d: nat)
    requires Distinct(xs)
    ensures multiset(xs)[d] == if d in xs then 1 else 0
  {
    if xs != [] {
      assert xs == [xs[0]] + xs[1..];
      DistinctMultiplicity(xs[1..], d);
      if d in xs[1..] {
        var k :| 0 <= k < |xs[1..]| && xs[1..][k] == d;
        assert xs[k + 1] == d;
      }
    }
  }

  // ---------------------------------------------------------------- single steps

  // A record that keeps its edges, and whether it is resolving.
  ghost predicate ShapeKept(a: LoadedModule, b: LoadedModule) {
    && b.dependencies == a.dependencies && (b.state == Resolving <==> a.state == Resolving) && (b.Live() ==> a.Live())
    && b.bound == a.bound && KeepsExports(a, b) && (b.image.At? <==> a.image.At? && b.Live())
  }

  lemma SameShape(ms: Table, rank: seq<nat>, clock: nat, leaving: set<nat>, now: Table)
    requires Ranked(ms, rank, clock) && EdgesDistinct(ms) && MappedWhileLive(ms) && ImportsBound(ms)
    requires |now| == |ms| && forall i :: 0 <= i < |ms| ==> ShapeKept(ms[i], now[i])
    requires forall i :: i in leaving ==> i < |ms| && now[i].state != Attached
    ensures Ranked(now, rank, clock) && EdgesDistinct(now) && MappedWhileLive(now) && ImportsBound(now)
    ensures LeavingNotAttached(now, leaving)
  {
    hide Distinct;
    SameRanks(ms, rank, clock, now);
    hide Ranked;
    hide ImportsBound;
    ImportsStayBound(ms, now);
  }

  lemma SameRanks(ms: Table, rank: seq<nat>, clock: nat, now: Table)
    requires Ranked(ms, rank, clock) && |now| == |ms|
    requires forall i :: 0 <= i < |ms| ==>
      now[i].dependencies == ms[i].dependencies && (now[i].state == Resolving <==> ms[i].state == Resolving)
    ensures Ranked(now, rank, clock) && EdgesInRange(now)
  {
  }

  // release_dependency: one of the releases due to d is made.
  lemma ReleaseStep(ms: Table, rank: seq<nat>, clock: nat, leaving: set<nat>, due: multiset<nat>, d: nat)
    requires Sound(ms, rank, clock, leaving, due + multiset{d}) && d < |ms|
    ensures ms[d].staticRefs > 0
    ensures Sound(ms[d := ms[d].(staticRefs := ms[d].staticRefs - 1)], rank, clock, leaving, due)
    ensures AttachedClosed(ms) ==> AttachedClosed(ms[d := ms[d].(staticRefs := ms[d].staticRefs - 1)])
  {
    var now := ms[d := ms[d].(staticRefs := ms[d].staticRefs - 1)];
    ReleaseKeepsCover(ms, leaving, due, d);
    hide Ranked, EdgesDistinct, MappedWhileLive, ImportsBound, RefsCover;
    SameShape(ms, rank, clock, leaving, now);
    assert AttachedClosed(ms) ==> AttachedClosed(now) by { hide LeavingNotAttached; }
  }

  lemma ReleaseKeepsCover(ms: Table, leaving: set<nat>, due: multiset<nat>, d: nat)
    requires RefsCover(ms, leaving, due + multiset{d}) && d < |ms|
    ensures ms[d].staticRefs > 0 && RefsCover(ms[d := ms[d].(staticRefs := ms[d].staticRefs - 1)], leaving, due)
  {
    var now := ms[d := ms[d].(staticRefs := ms[d].staticRefs - 1)];
    forall e | 0 <= e < |ms| ensures now[e].staticRefs >= |Dependents(now, leaving, e)| + due[e] {
      assert Dependents(now, leaving, e) == Dependents(ms, leaving, e);
    }
  }

  function Dropped(m: LoadedModule): LoadedModule { m.(state := Unloaded, image := Unmapped) }

  // detach_module: an attached module goes, and owes a release to each of its dependencies.
  lemma DetachStep(ms: Table, rank: seq<nat>, clock: nat, leaving: set<nat>, due: multiset<nat>, i: nat)
    requires Sound(ms, rank, clock, leaving, due) && i < |ms| && ms[i].state == Attached
    ensures Sound(ms[i := Dropped(ms[i])], rank, clock, leaving, due + multiset(ms[i].dependencies))
  {
    var now := ms[i := Dropped(ms[i])];
    DetachKeepsCover(ms, leaving, due, i);
    hide Ranked, EdgesDistinct, MappedWhileLive, ImportsBound, RefsCover;
    assert ms[i].image.At? by { MappedIfLive(ms, i); }
    SameShape(ms, rank, clock, leaving, now);
  }

  lemma MappedIfLive(ms: Table, i: nat)
    requires MappedWhileLive(ms) && i < |ms|
    ensures ms[i].image.At? <==> ms[i].Live()
  {
  }

  lemma DetachKeepsCover(ms: Table, leaving: set<nat>, due: multiset<nat>, i: nat)
    requires RefsCover(ms, leaving, due) && EdgesDistinct(ms) && i < |ms| && ms[i].state == Attached && i !in leaving
    ensures RefsCover(ms[i := Dropped(ms[i])], leaving, due + multiset(ms[i].dependencies))
  {
    var now := ms[i := Dropped(ms[i])];
    var deps := ms[i].dependencies;
    var owed: multiset<nat> := due + multiset(deps);
    forall d: nat | d < |ms| ensures now[d].staticRefs >= |Dependents(now, leaving, d)| + owed[d] {
      DistinctMultiplicity(deps, d);
      DroppedDependent(ms, leaving, i, d);
    }
  }

  lemma DroppedDependent(ms: Table, leaving: set<nat>, i: nat, d: nat)
    requires i < |ms| && ms[i].state == Attached && i !in leaving
    ensures |Dependents(ms[i := Dropped(ms[i])], leaving, d)| ==
            |Dependents(ms, leaving, d)| - if d in ms[i].dependencies then 1 else 0
  {
    assert Dependents(ms[i := Dropped(ms[i])], leaving, d) == Dependents(ms, leaving, d) - {i};
    assert i in Dependents(ms, leaving, d) <==> d in ms[i].dependencies;
  }

  lemma DetachKeepsClosed(ms: Table, leaving: set<nat>, i: nat)
    requires AttachedClosed(ms) && LeavingNotAttached(ms, leaving) && i < |ms| && Dependents(ms, leaving, i) == {}
    ensures AttachedClosed(ms[i := Dropped(ms[i])])
  {
    var now := ms[i := Dropped(ms[i])];
    forall j: nat, d: nat | j < |now| && now[j].state == Attached && d in now[j].dependencies
      ensures d < |now| && now[d].state == Attached
    {
      assert now[j] == ms[j] && d in ms[j].dependencies;
      assert j in Dependents(ms, leaving, d);
    }
  }

  // Any change of state among live, resolved states keeps the counts right.
  lemma StateStep(ms: Table, rank: seq<nat>, clock: nat, leaving: set<nat>, due: multiset<nat>, i: nat, s: State)
    requires Sound(ms, rank, clock, leaving, due) && i < |ms| && i !in leaving
    requires ms[i].Live() && ms[i].state != Resolving && s in {Ready, Attaching, Attached}
    ensures Sound(ms[i := ms[i].(state := s)], rank, clock, leaving, due)
  {
    var now := ms[i := ms[i].(state := s)];
    LiveKeepsCover(ms, leaving, due, now);
    hide Ranked, EdgesDistinct, MappedWhileLive, ImportsBound, RefsCover;
    assert ms[i].image.At? by { MappedIfLive(ms, i); }
    SameShape(ms, rank, clock, leaving, now);
  }

  lemma LiveKeepsCover(ms: Table, leaving: set<nat>, due: multiset<nat>, now: Table)
    requires RefsCover(ms, leaving, due) && |now| == |ms|
    requires forall i :: 0 <= i < |ms| ==>
      now[i].Live() == ms[i].Live() && now[i].dependencies == ms[i].dependencies
          && now[i].staticRefs >= ms[i].staticRefs
    ensures RefsCover(now, leaving, due)
  {
    forall e | 0 <= e < |ms| ensures now[e].staticRefs >= |Dependents(now, leaving, e)| + due[e] {
      assert Dependents(now, leaving, e) == Dependents(ms, leaving, e);
    }
  }

  function Refused(m: LoadedModule): LoadedModule { m.(state := Rejected, image := Unmapped, dependencies := []) }

  // reject_loaded_module, after its releases: the module is out.
  lemma RejectStep(ms: Table, rank: seq<nat>, clock: nat, leaving: set<nat>, due: multiset<nat>, i: nat)
    requires Sound(ms, rank, clock, leaving + {i}, due) && i < |ms| && i !in leaving
    requires ms[i].state != Resolving && ms[i].state != Attached
    ensures Sound(ms[i := Refused(ms[i])], rank, clock, leaving, due)
  {
    var now := ms[i := Refused(ms[i])];
    RejectKeepsCover(ms, leaving, due, i);
    hide RefsCover;
    RejectKeepsRanks(ms, rank, clock, i);
    hide Ranked, ImportsBound;
    ImportsStayBound(ms, now);
  }

  lemma RejectKeepsRanks(ms: Table, rank: seq<nat>, clock: nat, i: nat)
    requires Ranked(ms, rank, clock) && i < |ms| && ms[i].state != Resolving
    ensures Ranked(ms[i := Refused(ms[i])], rank, clock) && EdgesInRange(ms[i := Refused(ms[i])])
  {
  }

  lemma RejectKeepsCover(ms: Table, leaving: set<nat>, due: multiset<nat>, i: nat)
    requires RefsCover(ms, leaving + {i}, due) && i < |ms|
    ensures RefsCover(ms[i := Refused(ms[i])], leaving, due)
  {
    var now := ms[i := Refused(ms[i])];
    forall e | 0 <= e < |ms| ensures now[e].staticRefs >= |Dependents(now, leaving, e)| + due[e] {
      assert Dependents(now, leaving, e) == Dependents(ms, leaving + {i}, e);
    }
  }

  // No attached module lists one that is not attached, so refusing such a one is harmless.
  lemma RejectKeepsClosed(ms: Table, i: nat)
    requires AttachedClosed(ms) && i < |ms| && ms[i].state != Attached
    ensures AttachedClosed(ms[i := Refused(ms[i])])
  {
    var now := ms[i := Refused(ms[i])];
    forall j: nat, d: nat | j < |now| && now[j].state == Attached && d in now[j].dependencies
      ensures d < |now| && now[d].state == Attached
    {
      assert now[j] == ms[j] && d in ms[j].dependencies;
    }
  }

  // load_pe_module: a new record without edges.
  lemma PushStep(ms: Table, rank: seq<nat>, clock: nat, m: LoadedModule)
    requires Sound(ms, rank, clock, {}, multiset{}) && m.state == Resolving && m.image.At? && m.dependencies == []
    ensures Sound(ms + [m], rank + [0], clock, {}, multiset{})
    ensures AttachedClosed(ms) ==> AttachedClosed(ms + [m])
  {
    var now := ms + [m];
    hide ImportsBound;
    ImportsStayBound(ms, now);
    forall e | 0 <= e < |now| ensures now[e].staticRefs >= |Dependents(now, {}, e)| + multiset{}[e] {
      if e < |ms| { assert Dependents(now, {}, e) == Dependents(ms, {}, e); }
      else { assert Dependents(now, {}, e) == {}; }
    }
  }

  // load_pe_module: the imports are written and the module is ready.
  function Readied(m: LoadedModule, bound: seq<ResolvedImport>): LoadedModule { m.(state := Ready, bound := bound) }

  // Finished resolving: the module gets the next rank.
  lemma FinishStep(ms: Table, rank: seq<nat>, clock: nat, i: nat, bound: seq<ResolvedImport>)
    requires Sound(ms, rank, clock, {}, multiset{}) && i < |ms| && ms[i].state == Resolving
    requires SlotsBound(ms[i := Readied(ms[i], bound)], i)
    ensures Sound(ms[i := Readied(ms[i], bound)], rank[i := clock], clock + 1, {}, multiset{})
    ensures AttachedClosed(ms) ==> AttachedClosed(ms[i := Readied(ms[i], bound)])
  {
    var now := ms[i := Readied(ms[i], bound)];
    hide ImportsBound;
    OtherImportsBound(ms, now, i);
    forall e | 0 <= e < |ms| ensures now[e].staticRefs >= |Dependents(now, {}, e)| + multiset{}[e] {
      assert Dependents(now, {}, e) == Dependents(ms, {}, e);
    }
  }

  lemma OtherImportsBound(ms: Table, now: Table, i: nat)
    requires ImportsBound(ms) && i < |ms| == |now| && SlotsBound(now, i) && now == ms[i := now[i]]
    requires now[i].info == ms[i].info && now[i].image == ms[i].image
    ensures ImportsBound(now)
  {
    hide AnswersAt;
    forall j: nat | j < |now| && Bindable(now[j]) ensures SlotsBound(now, j) {
      if j != i {
        assert SlotsBound(ms, j);
        forall k: nat | k < |now[j].info.imports| ensures SlotBound(now, j, k) {
          assert SlotBound(ms, j, k);
          if now[j].bound[k].provider.Some? { SameAnswer(ms, now, i, now[j].bound[k].provider.value); }
        }
      }
    }
  }

  lemma SameAnswer(ms: Table, now: Table, i: nat, d: nat)
    requires i < |ms| == |now| && d < |ms| && now == ms[i := now[i]]
    requires now[i].info == ms[i].info && now[i].image == ms[i].image
    ensures forall target, address :: AnswersAt(now[d], target, address) == AnswersAt(ms[d], target, address)
  {
    hide FirstExport;
  }

  function WithEdge(ms: Table, owner: nat, d: nat): Table
    requires owner < |ms| && d < |ms| && owner != d
  {
    ms[owner := ms[owner].(dependencies := ms[owner].dependencies + [d])]
      [d := ms[d].(staticRefs := ms[d].staticRefs + 1)]
  }

  // A resolving module records a dependency on a finished one.
  lemma EdgeStep(ms: Table, rank: seq<nat>, clock: nat, owner: nat, d: nat)
    requires Sound(ms, rank, clock, {}, multiset{}) && owner < |ms| && d < |ms| && owner != d
    requires ms[owner].state == Resolving && ms[d].state != Resolving && d !in ms[owner].dependencies
    ensures Sound(WithEdge(ms, owner, d), rank, clock, {}, multiset{})
  {
    var now := WithEdge(ms, owner, d);
    EdgeKeepsRanks(ms, rank, clock, owner, d);
    EdgeKeepsCover(ms, owner, d);
    EdgesStayDistinct(ms, owner, d);
    hide Ranked, RefsCover, EdgesDistinct;
    assert ImportsBound(now) by {
      hide ImportsBound, MappedWhileLive, LeavingNotAttached;
      ImportsStayBound(ms, now);
    }
    assert MappedWhileLive(now) by { hide ImportsBound; }
  }

  lemma EdgeKeepsRanks(ms: Table, rank: seq<nat>, clock: nat, owner: nat, d: nat)
    requires Ranked(ms, rank, clock) && owner < |ms| && d < |ms| && owner != d
    requires ms[owner].state == Resolving && ms[d].state != Resolving
    ensures Ranked(WithEdge(ms, owner, d), rank, clock) && EdgesInRange(WithEdge(ms, owner, d))
  {
  }

  lemma EdgesStayDistinct(ms: Table, owner: nat, d: nat)
    requires EdgesDistinct(ms) && owner < |ms| && d < |ms| && owner != d && d !in ms[owner].dependencies
    ensures EdgesDistinct(WithEdge(ms, owner, d))
  {
    assert Distinct(ms[owner].dependencies + [d]);
  }

  lemma EdgeKeepsCover(ms: Table, owner: nat, d: nat)
    requires RefsCover(ms, {}, multiset{}) && owner < |ms| && d < |ms| && owner != d
    ensures RefsCover(WithEdge(ms, owner, d), {}, multiset{})
  {
    var now := WithEdge(ms, owner, d);
    forall e: nat | e < |now| ensures now[e].staticRefs >= |Dependents(now, {}, e)| + multiset{}[e] {
      if e == d { DependentsPlusOne(ms, now, owner, e); }
      else { assert Dependents(now, {}, e) == Dependents(ms, {}, e); }
    }
  }

  // A new edge is counted once: no excess arises, at the target or elsewhere.
  lemma EdgeKeepsExcess(ms: Table, owner: nat, d: nat, e: nat)
    requires owner < |ms| && d < |ms| && e < |ms| && owner != d && ms[owner].Live() && d !in ms[owner].dependencies
    ensures Excess(WithEdge(ms, owner, d), e) == Excess(ms, e)
  {
    var now := WithEdge(ms, owner, d);
    forall i: nat ensures i in Dependents(now, {}, e) <==> i in Dependents(ms, {}, e) || (e == d && i == owner) {
      EdgeSeenFrom(ms, owner, d, e, i);
    }
    hide Dependents, WithEdge;
    if e == d {
      assert owner !in Dependents(ms, {}, e) by { NotYetDependent(ms, owner, e); }
      assert Dependents(now, {}, e) == Dependents(ms, {}, e) + {owner};
    } else { assert Dependents(now, {}, e) == Dependents(ms, {}, e); }
    EdgeCounts(ms, owner, d, e);
  }

  lemma EdgeSeenFrom(ms: Table, owner: nat, d: nat, e: nat, i: nat)
    requires owner < |ms| && d < |ms| && owner != d && ms[owner].Live()
    ensures i in Dependents(WithEdge(ms, owner, d), {}, e) <==>
            i in Dependents(ms, {}, e) || (e == d && i == owner)
  {
    if i < |ms| {
      assert WithEdge(ms, owner, d)[i].dependencies == ms[i].dependencies + if i == owner then [d] else [];
    }
  }

  lemma NotYetDependent(ms: Table, owner: nat, d: nat)
    requires owner < |ms| && d !in ms[owner].dependencies
    ensures owner !in Dependents(ms, {}, d)
  {
  }

  lemma EdgeCounts(ms: Table, owner: nat, d: nat, e: nat)
    requires owner < |ms| && d < |ms| && e < |ms| && owner != d
    ensures |WithEdge(ms, owner, d)| == |ms|
    ensures WithEdge(ms, owner, d)[e].staticRefs == ms[e].staticRefs + if e == d then 1 else 0
  {
  }

  lemma DependentsPlusOne(ms: Table, now: Table, owner: nat, e: nat)
    requires |now| == |ms| && owner < |ms|
    requires forall i :: 0 <= i < |ms| && i != owner ==>
      (now[i].Live() && e in now[i].dependencies <==> ms[i].Live() && e in ms[i].dependencies)
    ensures |Dependents(now, {}, e)| <= |Dependents(ms, {}, e)| + 1
  {
    SubsetSize(Dependents(now, {}, e), Dependents(ms, {}, e) + {owner});
  }

  lemma EdgeKeepsClosed(ms: Table, owner: nat, d: nat)
    requires AttachedClosed(ms) && owner < |ms| && d < |ms| && owner != d && ms[owner].state == Resolving
    ensures AttachedClosed(WithEdge(ms, owner, d))
  {
    var now := WithEdge(ms, owner, d);
    forall j: nat, e: nat | j < |now| && now[j].state == Attached && e in now[j].dependencies
      ensures e < |now| && now[e].state == Attached
    {
      assert now[j].dependencies == ms[j].dependencies && e in ms[j].dependencies;
    }
  }

  // More references never hurt.
  lemma CountStep(ms: Table, rank: seq<nat>, clock: nat, d: nat, statics: nat, dynamics: nat)
    requires Sound(ms, rank, clock, {}, multiset{}) && d < |ms| && statics >= ms[d].staticRefs
    ensures Sound(ms[d := ms[d].(staticRefs := statics, dynamicRefs := dynamics)], rank, clock, {}, multiset{})
    ensures AttachedClosed(ms) ==>
      AttachedClosed(ms[d := ms[d].(staticRefs := statics, dynamicRefs := dynamics)])
  {
    var now := ms[d := ms[d].(staticRefs := statics, dynamicRefs := dynamics)];
    var empty: set<nat>, none: multiset<nat> := {}, multiset{};
    LiveKeepsCover(ms, empty, none, now);
    hide Ranked, EdgesDistinct, MappedWhileLive, ImportsBound, RefsCover;
    MappedIfLive(ms, d);
    SameShape(ms, rank, clock, empty, now);
  }

  // Cutting the table off at n drops only records no remaining record refers to.
  lemma TruncateStep(ms: Table, rank: seq<nat>, clock: nat, leaving: set<nat>, due: multiset<nat>, n: nat)
    requires Sound(ms, rank, clock, leaving, due) && n <= |ms| && forall i :: i in leaving ==> n <= i
    requires forall i: nat, d: nat {:trigger d in ms[i].dependencies} :: i < n && d in ms[i].dependencies ==> d < n
    ensures Sound(ms[..n], rank[..n], clock, {}, multiset{})
    ensures AttachedClosed(ms) ==> AttachedClosed(ms[..n])
  {
    hide ImportsBound;
    ImportsStayBound(ms, ms[..n]);
    forall d | 0 <= d < n ensures ms[..n][d].staticRefs >= |Dependents(ms[..n], {}, d)| + multiset{}[d] {
      DependentsShrink(ms, ms[..n], leaving, {}, d);
    }
  }

  // ---------------------------------------------------------------- mapped bytes

  lemma {:induction false} TotalOfPrefix(ms: Table, n: nat)
    requires n <= |ms|
    ensures TotalMapped(ms[..n]) <= TotalMapped(ms)
    decreases |ms|
  {
    if n == |ms| { assert ms[..n] == ms; }
    else {
      assert ms[..|ms| - 1][..n] == ms[..n];
      TotalOfPrefix(ms[..|ms| - 1], n);
    }
  }

  lemma {:induction false} TotalFalls(before: Table, after: Table)
    requires |before| == |after|
    requires forall i :: 0 <= i < |before| ==> after[i].image == before[i].image || after[i].image == Unmapped
    ensures TotalMapped(after) <= TotalMapped(before)
    decreases |before|
  {
    if before != [] { TotalFalls(before[..|before| - 1], after[..|after| - 1]); }
  }

  lemma {:induction false} TotalIsPageMultiple(ms: Table, page: nat)
    requires page > 0 && forall i :: 0 <= i < |ms| ==> PageMultiple(page, ms[i].MappedBytes())
    ensures PageMultiple(page, TotalMapped(ms))
  {
    if ms == [] { DivModUnique(0, page, 0, 0); }
    else {
      TotalIsPageMultiple(ms[..|ms| - 1], page);
      MultiplesAdd(TotalMapped(ms[..|ms| - 1]), ms[|ms| - 1].MappedBytes(), page);
    }
  }

  lemma MultiplesAdd(a: nat, b: nat, page: nat)
    requires page > 0 && a % page == 0 && b % page == 0
    ensures (a + b) % page == 0 && (a >= b ==> (a - b) % page == 0)
  {
    var p, q := a / page, b / page;
    assert a == p * page && b == q * page;
    MultiplesDistribute(p, q, page);
    DivModUnique(a + b, page, p + q, 0);
    if a >= b { DivModUnique(a - b, page, p - q, 0); }
  }

  lemma MultiplesDistribute(p: nat, q: nat, page: nat)
    requires page > 0
    ensures p * page + q * page == (p + q) * page && p * page - q * page == (p - q) * page
    ensures p * page >= q * page ==> p >= q
  {
    MulMonotone(p + 1, q, page);
    assert (p + 1) * page == p * page + page;
  }

  // Rounding a new image up to whole pages cannot break the limit its unrounded size met.
  lemma RoundedImageFits(ms: Table, page: nat, sizeOfImage: nat)
    requires WithinLimits(ms, page) && sizeOfImage <= MAX_MAPPED_BYTES - TotalMapped(ms)
    ensures TotalMapped(ms) + AlignUp(sizeOfImage, page) <= MAX_MAPPED_BYTES
    ensures PageMultiple(page, AlignUp(sizeOfImage, page))
  {
    TotalIsPageMultiple(ms, page);
    MultiplesAdd(MAX_MAPPED_BYTES, TotalMapped(ms), page);
    AlignUpStaysBelow(sizeOfImage, MAX_MAPPED_BYTES - TotalMapped(ms), page);
    AlignedUpIsAligned(sizeOfImage, page);
  }

  // ---------------------------------------------------------------- resources along changes

  ghost predicate SameIdentities(before: Table, after: Table) {
    |after| == |before| && forall i :: 0 <= i < |before| ==> SameIdentity(before[i], after[i])
  }

  lemma RewindingKeepsResources(before: Table, after: Table, rejected: seq<string>, listed: seq<string>, page: nat)
    requires Resources(before, rejected, listed, page) && SameIdentities(before, after)
    ensures Resources(after, rejected, listed, page)
  {
    TotalFalls(before, after);
    if page > 0 { DivModUnique(0, page, 0, 0); }
  }

  lemma RejectingAbsentName(ms: Table, rejected: seq<string>, listed: seq<string>, name: string)
    requires NamesKept(ms, rejected, listed)
    requires forall i :: 0 <= i < |ms| && ms[i].Live() && ms[i].provider == Profile ==> !IEquals(name, ms[i].name)
    ensures NamesKept(ms, rejected + [name], listed)
  {
    forall i | 0 <= i < |ms| && ms[i].Live() && ms[i].provider == Profile
      ensures !IsRejected(rejected + [name], ms[i].name)
    {
      forall k | 0 <= k < |rejected| + 1 ensures !IEquals((rejected + [name])[k], ms[i].name) {
        if k < |rejected| { assert !IEquals(rejected[k], ms[i].name); }
      }
    }
  }

  // ---------------------------------------------------------------- order of attachment

  // The modules attached by one call, in order: each was ready, none comes twice, and each
  // comes after those of its dependencies that were not attached already.
  ghost predicate InOrder(before: Table, log: seq<nat>) {
    && (forall k :: 0 <= k < |log| ==> log[k] < |before| && before[log[k]].state == Ready)
    && Distinct(log)
    && (forall k, d: nat :: 0 <= k < |log| && d in before[log[k]].dependencies ==> Earlier(before, log, k, d))
  }

  ghost predicate Earlier(before: Table, log: seq<nat>, k: int, d: nat) {
    0 <= k <= |log| && ((d < |before| && before[d].state == Attached) || d in log[..k])
  }

  // log lists exactly the modules that have become attached.
  ghost predicate AttachedBy(before: Table, after: Table, log: seq<nat>) {
    |after| == |before| && forall i: nat :: i < |before| ==>
      after[i] == if i in log then before[i].(state := Attached) else before[i]
  }

  lemma LogsCompose(a: Table, b: Table, c: Table, first: seq<nat>, second: seq<nat>)
    requires InOrder(a, first) && AttachedBy(a, b, first) && InOrder(b, second) && AttachedBy(b, c, second)
    requires forall i :: i in second ==> i < |a| && a[i].state == Ready
    ensures InOrder(a, first + second) && AttachedBy(a, c, first + second)
  {
    var log := first + second;
    forall k, d: nat | 0 <= k < |log| && d in a[log[k]].dependencies ensures Earlier(a, log, k, d) {
      if k < |first| {
        assert Earlier(a, first, k, d);
        assert log[..k] == first[..k];
      } else {
        assert log[k] == second[k - |first|];
        assert Earlier(b, second, k - |first|, d);
        assert log[..k] == first + second[..k - |first|];
      }
    }
    forall j, k | 0 <= j < k < |log| ensures log[j] != log[k] {
      if j < |first| <= k { assert b[log[j]].state == Attached && log[k] == second[k - |first|]; }
    }
  }

  // ---------------------------------------------------------------- whole calls

  // Someone who got a handle to a module finds it attached, until everything is torn down.
  ghost predicate Held(ms: Table, tornDown: bool) {
    forall i :: 0 <= i < |ms| && ms[i].dynamicRefs > 0 && (ms[i].Live() || !tornDown) ==> ms[i].state == Attached
  }

  function DynamicRefs(ms: Table, i: nat): nat { if i < |ms| then ms[i].dynamicRefs else 0 }

  // Any call keeps the records of the table: each stays the same module, is mapped where it
  // was or not at all, and moves only forward through its states.
  ghost predicate Evolves(before: Table, after: Table) {
    |before| <= |after| && forall i :: 0 <= i < |before| ==> Evolved(before[i], after[i])
  }

  ghost predicate Evolved(a: LoadedModule, b: LoadedModule) {
    && b.name == a.name && b.provider == a.provider && b.directory == a.directory && b.info == a.info
    && b.bound == a.bound && (b.image == a.image || b.image == Unmapped) && Allowed(a.state, b.state)
  }

  // The dynamic counts are as before, with one more reference to the holder.
  ghost predicate OneMore(before: Table, after: Table, holder: Option<nat>) {
    forall i: nat :: i < |after| ==>
      after[i].dynamicRefs == DynamicRefs(before, i) + if holder == Some(i) then 1 else 0
  }

  lemma EvolvesCompose(a: Table, b: Table, c: Table)
    requires Evolves(a, b) && Evolves(b, c)
    ensures Evolves(a, c)
  {
    forall i | 0 <= i < |a| ensures Evolved(a[i], c[i]) { assert Evolved(a[i], b[i]) && Evolved(b[i], c[i]); }
  }

  lemma GrowingEvolves(a: Table, b: Table)
    requires Grows(a, b)
    ensures Evolves(a, b) && OneMore(a, b, None)
    ensures Settled(a) ==> Settled(b)
    ensures forall t :: Held(a, t) ==> Held(b, t)
  {
    forall i | 0 <= i < |a| ensures Evolved(a[i], b[i]) { assert b[i] == a[i].(staticRefs := b[i].staticRefs); }
    forall i | |a| <= i < |b| ensures b[i].state == Ready && b[i].dynamicRefs == 0 { assert NewlyLoaded(b[i]); }
  }

  // Attaching, detaching and rejecting: no module that is held is lost.
  lemma RewindingEvolves(a: Table, b: Table)
    requires Rewinds(a, b)
    ensures Evolves(a, b) && OneMore(a, b, None) && SameIdentities(a, b)
    ensures Settled(a) ==> Settled(b)
    ensures forall t :: Held(a, t) ==> Held(b, t)
  {
    forall i | 0 <= i < |a| ensures Evolved(a[i], b[i]) && SameIdentity(a[i], b[i]) { assert Rewound(a[i], b[i]); }
  }

  lemma OneMoreCompose(a: Table, b: Table, c: Table, holder: Option<nat>)
    requires OneMore(a, b, None) && OneMore(b, c, holder) && |a| <= |b| <= |c|
    ensures OneMore(a, c, holder)
  {
    forall i: nat | i < |c|
      ensures c[i].dynamicRefs == DynamicRefs(a, i) + if holder == Some(i) then 1 else 0
    {
      if i < |b| { assert b[i].dynamicRefs == DynamicRefs(a, i); }
    }
  }

  // ---------------------------------------------------------------- growth

  predicate Finished(m: LoadedModule) { m.state == Ready || m.state == Attached }

  ghost predicate NoneAttaching(ms: Table) { forall i :: 0 <= i < |ms| ==> ms[i].state != Attaching }

  predicate NewEdge(before: seq<nat>, after: seq<nat>, d: nat) { d in after && d !in before }

  // Loading on behalf of a module that is still resolving: as Grows, but the owner gains
  // edges, and each new edge is counted at its target.
  ghost predicate GrowsFor(before: Table, after: Table, owner: Option<nat>) {
    match owner
    case None => Grows(before, after)
    case Some(o) =>
      && ExcessKept(before, after)
      && o < |before| <= |after| && before[o].dependencies <= after[o].dependencies
      && (forall i :: 0 <= i < |before| && i != o ==>
            && after[i] == before[i].(staticRefs := after[i].staticRefs)
            && before[i].staticRefs + (if NewEdge(before[o].dependencies, after[o].dependencies, i) then 1 else 0)
               <= after[i].staticRefs)
      && after[o] == before[o].(staticRefs := after[o].staticRefs, dependencies := after[o].dependencies)
      && before[o].staticRefs <= after[o].staticRefs
      && (forall i :: |before| <= i < |after| ==> NewlyLoaded(after[i]))
  }

  lemma GrowsItself(ms: Table)
    ensures Grows(ms, ms)
  {
  }

  lemma GrowsCompose(a: Table, b: Table, c: Table)
    requires Grows(a, b) && Grows(b, c)
    ensures Grows(a, c)
  {
    forall i | 0 <= i < |a| ensures c[i] == a[i].(staticRefs := c[i].staticRefs) && a[i].staticRefs <= c[i].staticRefs {
      assert b[i] == a[i].(staticRefs := b[i].staticRefs) && c[i] == b[i].(staticRefs := c[i].staticRefs);
    }
    forall i | |a| <= i < |c| ensures NewlyLoaded(c[i]) {
      if i < |b| { assert c[i] == b[i].(staticRefs := c[i].staticRefs); }
    }
  }

  lemma GrowsForThenGrows(a: Table, b: Table, c: Table, owner: Option<nat>)
    requires GrowsFor(a, b, owner) && Grows(b, c)
    ensures GrowsFor(a, c, owner)
  {
    if owner.None? { GrowsCompose(a, b, c); }
    else {
      assert c[owner.value].dependencies == b[owner.value].dependencies;
      forall i | |a| <= i < |c| ensures NewlyLoaded(c[i]) {
        if i < |b| { assert c[i] == b[i].(staticRefs := c[i].staticRefs); }
      }
    }
  }

  lemma GrowsForThenEdge(a: Table, b: Table, o: nat, d: nat)
    requires GrowsFor(a, b, Some(o)) && o < |b| && d < |b| && o != d && d !in b[o].dependencies
    requires b[o].state == Resolving
    ensures GrowsFor(a, WithEdge(b, o, d), Some(o))
  {
    var c := WithEdge(b, o, d);
    forall e: nat | e < |a| ensures Excess(a, e) <= Excess(c, e) { EdgeKeepsExcess(b, o, d, e); }
    assert c[o].dependencies == b[o].dependencies + [d];
    forall i | |a| <= i < |c| ensures NewlyLoaded(c[i]) {
      assert NewlyLoaded(b[i]);
    }
  }

  lemma GrowsForThenCount(a: Table, b: Table, d: nat)
    requires GrowsFor(a, b, None) && d < |b|
    ensures GrowsFor(a, b[d := b[d].(staticRefs := b[d].staticRefs + 1)], None)
  {
    var c := b[d := b[d].(staticRefs := b[d].staticRefs + 1)];
    forall e: nat | e < |a| ensures Excess(a, e) <= Excess(c, e) {
      assert Dependents(c, {}, e) == Dependents(b, {}, e);
    }
    forall i | |a| <= i < |c| ensures NewlyLoaded(c[i]) { assert NewlyLoaded(b[i]); }
  }

  // Records that keep name, provider, mapping and liveness use the same resources.
  ghost predicate SameResources(before: Table, after: Table) {
    |after| == |before| && forall i :: 0 <= i < |before| ==>
      && after[i].name == before[i].name && after[i].provider == before[i].provider
      && after[i].image == before[i].image && after[i].Live() == before[i].Live()
  }

  lemma {:induction false} SameTotal(before: Table, after: Table)
    requires SameResources(before, after)
    ensures TotalMapped(after) == TotalMapped(before)
  {
    if before != [] { SameTotal(before[..|before| - 1], after[..|after| - 1]); }
  }

  lemma SameResourcesSuffice(before: Table, after: Table, rejected: seq<string>, listed: seq<string>, page: nat)
    requires Resources(before, rejected, listed, page) && SameResources(before, after)
    ensures Resources(after, rejected, listed, page)
  {
    SameTotal(before, after);
  }

  lemma PushedResources(ms: Table, rejected: seq<string>, listed: seq<string>, page: nat, m: LoadedModule)
    requires Resources(ms, rejected, listed, page) && |ms| < MAX_LOADED_MODULES
    requires m.image.At? && m.image.base > 0 && m.image.size > 0
    requires forall i :: 0 <= i < |ms| ==> Apart(ms[i].image, m.image)
    requires forall i :: 0 <= i < |ms| && ms[i].Live() && ms[i].provider == m.provider ==> !IEquals(ms[i].name, m.name)
    requires m.provider == Profile ==> IsListed(listed, m.name) && !IsRejected(rejected, m.name)
    requires PageMultiple(page, m.image.size) && TotalMapped(ms) + m.image.size <= MAX_MAPPED_BYTES
    ensures Resources(ms + [m], rejected, listed, page)
  {
    hide NamesKept, WithinLimits, MappingsApart;
    PushedNames(ms, rejected, listed, m);
    PushedLimits(ms, page, m);
    PushedApart(ms, m);
  }

  lemma PushedNames(ms: Table, rejected: seq<string>, listed: seq<string>, m: LoadedModule)
    requires NamesKept(ms, rejected, listed)
    requires forall i :: 0 <= i < |ms| && ms[i].Live() && ms[i].provider == m.provider ==> !IEquals(ms[i].name, m.name)
    requires m.provider == Profile ==> IsListed(listed, m.name) && !IsRejected(rejected, m.name)
    ensures NamesKept(ms + [m], rejected, listed)
  {
    hide IEquals, IsListed, IsRejected;
  }

  lemma PushedLimits(ms: Table, page: nat, m: LoadedModule)
    requires WithinLimits(ms, page) && |ms| < MAX_LOADED_MODULES && m.image.At?
    requires PageMultiple(page, m.image.size) && TotalMapped(ms) + m.image.size <= MAX_MAPPED_BYTES
    ensures WithinLimits(ms + [m], page)
  {
    var now := ms + [m];
    assert now[..|now| - 1] == ms;
  }

  lemma PushedApart(ms: Table, m: LoadedModule)
    requires MappingsApart(ms) && m.image.At? && m.image.base > 0 && m.image.size > 0
    requires forall i :: 0 <= i < |ms| ==> Apart(ms[i].image, m.image)
    ensures MappingsApart(ms + [m])
  {
    hide Apart;
  }

  lemma TruncatedResources(ms: Table, rejected: seq<string>, listed: seq<string>, page: nat, n: nat)
    requires Resources(ms, rejected, listed, page) && n <= |ms|
    ensures Resources(ms[..n], rejected, listed, page)
  {
    TotalOfPrefix(ms, n);
  }
}
