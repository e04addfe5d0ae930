// Runs of the graph in which nothing outside gets in its way, and in which nevertheless a
// module is told of its end before one that depends on it, or keeps a reference nobody holds,
// or is unmapped while an attached module has imported from it.
module GraphExamples {
  import opened Ascii
  import opened ImageMapper
  import opened GraphState
  import opened GraphSteps
  import opened GraphLinks
  import opened DetachOrder
  import opened ModuleNames
  import opened ModuleGraph
  import F = Forwarder

  const PAGE: nat := 4096

  // b exports x; a and n import it; c imports from n and from a module nobody knows; d forwards
  // x to b, and e imports it from d.
  const X := NamedExport("x")
  const B := DllInfo(PAGE, [], [Export(true, "x", 1, 0, NoForward)])
  const A := DllInfo(PAGE, [Import("b.dll", X, 8)], [])
  const N := DllInfo(PAGE, [Import("b.dll", X, 8)], [])
  const C := DllInfo(PAGE, [Import("n.dll", X, 8), Import("m.dll", X, 16)], [])

  const D := DllInfo(PAGE, [], [Export(true, "x", 1, 0, ForwardTo("b.dll", X))])
  const E := DllInfo(PAGE, [Import("d.dll", X, 8)], [])

  function Names(): seq<DllMapping> {
    [DllMapping("b.dll", "b"), DllMapping("a.dll", "a"), DllMapping("n.dll", "n"), DllMapping("c.dll", "c"),
     DllMapping("d.dll", "d"), DllMapping("e.dll", "e")]
  }

  function Files(): map<string, ProfileFile> {
    map["b" := ProfileFile(false, Dll(B)), "a" := ProfileFile(false, Dll(A)),
        "n" := ProfileFile(false, Dll(N)), "c" := ProfileFile(false, Dll(C)),
        "d" := ProfileFile(false, Dll(D)), "e" := ProfileFile(false, Dll(E))]
  }

  predicate Letter(c: char) { c in "banmcde" }

  function Dll1(c: char): string { [c, '.', 'd', 'l', 'l'] }

  lemma NameIsNormal(c: char)
    requires Letter(c)
    ensures Normalize(Dll1(c)) == Dll1(c)
  {
    NormalizeNormalized(Dll1(c));
  }

  lemma NamesDiffer(c: char, d: char)
    requires Letter(c) && Letter(d)
    ensures IEquals(Dll1(c), Dll1(d)) <==> c == d
  {
    assert ToLower(Dll1(c)[0]) == c && ToLower(Dll1(d)[0]) == d;
  }

  // The graph over these files, with a page size that divides the limit.
  ghost predicate IsSample(g: GuestModuleGraph)
  {
    && g.profile == Names() && g.profileFiles == Files() && g.drive == map[] && g.builtins == [] && g.page == PAGE
    && g.obliging
  }

  lemma PageDivides()
    ensures PageMultiple(PAGE, MAX_MAPPED_BYTES) && AlignUp(PAGE, PAGE) == PAGE
  {
    AlignUpStaysBelow(PAGE, PAGE, PAGE);
  }

  lemma FileOf(g: GuestModuleGraph, k: nat)
    requires IsSample(g) && k < 6
    ensures var name := Names()[k].name;
      match Files()[Names()[k].source].file
      case Dll(info) => g.ProfileDll(name, info)
      case Unusable => false
    ensures IsListed(g.Listed(), Names()[k].name)
  {
    hide IEquals;
    var name := Names()[k].name;
    forall j | 0 <= j < k ensures !IEquals(Names()[j].name, name) { NamesApart(j, k); }
    IEqualsReflexive(name);
    assert g.ListedFirst(k, name);
    assert g.Listed()[k] == name;
  }

  lemma NamesApart(j: nat, k: nat)
    requires j < k < 6
    ensures !IEquals(Names()[j].name, Names()[k].name)
  {
    hide IEquals;
    var letters := "bancde";
    assert Names()[j].name == Dll1(letters[j]) && Names()[k].name == Dll1(letters[k]);
    NamesDiffer(letters[j], letters[k]);
  }

  // Only b is loaded, and attached.
  ghost predicate OnlyB(ms: Table) {
    && |ms| == 1 && AttachedNamed(ms, 0, "b.dll", Profile) && ms[0].info == B
    && ms[0].image.At? && ms[0].image.base > 0 && ms[0].image.size == PAGE
  }

  lemma BIsDirect(ms: Table)
    requires OnlyB(ms)
    ensures Offers(ms, 0, "b.dll", X) && Answerable(ms, "b.dll", X, [], 0)
  {
    hide FirstExport, IEquals, Normalize;
    OneExport(B.exports[0]);
    assert LeadsToAddress(ms, 0, X, [] + [Visit("b.dll", X)], 0);
  }

  lemma ImportOfBReady(ms: Table)
    requires OnlyB(ms)
    ensures AllReady(ms, [Import("b.dll", X, 8)]) && SuppliesImport(ms, 0, [Import("b.dll", X, 8)], 0)
  {
    hide OnlyB, IEquals, Normalize, Answerable, Offers;
    NormalNames();
    BIsDirect(ms);
    assert ImportReady(ms, Import("b.dll", X, 8));
  }

  lemma OneMapped(m: LoadedModule)
    ensures TotalMapped([m]) == m.MappedBytes()
  {
    assert [m][..0] == [];
  }

  lemma TwoMapped(m: LoadedModule, n: LoadedModule)
    ensures TotalMapped([m] + [n]) == m.MappedBytes() + n.MappedBytes()
  {
    assert ([m] + [n])[..1] == [m];
    OneMapped(m);
  }

  lemma NotNamed(ms: Table, c: char)
    requires OnlyB(ms) && Letter(c) && c != 'b'
    ensures forall i :: 0 <= i < |ms| ==> !NamedLive(ms[i], Dll1(c), Profile)
  {
    NamesDiffer('b', c);
    assert Dll1('b') == "b.dll";
    if IEquals(ms[0].name, Dll1(c)) {
      IEqualsTransitive(ms[0].name, "b.dll", Dll1(c));
    }
  }

  lemma BIsLoadable(g: GuestModuleGraph)
    requires IsSample(g)
    ensures g.LoadableFrom(Profile, [], [], "b.dll", g.mainDirectory, B)
  {
    FileOf(g, 0);
  }

  // After b, a module that is not it and imports nothing but x from it can be loaded.
  lemma NextIsLoadable(g: GuestModuleGraph, ms: Table, k: nat, info: DllInfo)
    requires IsSample(g) && OnlyB(ms) && 0 < k < 6 && info.sizeOfImage == PAGE
    requires Files()[Names()[k].source].file == Dll(info)
    requires info.imports == [] || info.imports == [Import("b.dll", X, 8)]
    ensures g.LoadableFrom(Profile, ms, [], Names()[k].name, g.mainDirectory, info)
  {
    hide g.ProfileDll, IEquals, SuppliesImport, ImportReady;
    FileOf(g, k);
    ImportOfBReady(ms);
    OneMapped(ms[0]);
    assert ms == [ms[0]];
    var c := "bancde"[k];
    NotNamed(ms, c);
    assert Dll1(c) == Names()[k].name;
    hide AllReady;
    assert AllReady(ms, info.imports) by { NothingToBind(ms); }
  }

  lemma NothingToBind(ms: Table)
    ensures AllReady(ms, [])
  {
  }

  // A graph that has loaded b on request.
  method LoadB() returns (g: GuestModuleGraph, handle: nat)
    ensures fresh(g) && IsSample(g) && g.Valid() && !g.tornDown && g.rejected == [] && OnlyB(g.modules)
    ensures NoneOut(g.modules) && g.modules[0].dynamicRefs == 1 && g.modules[0].staticRefs == 0
    ensures Owns(g.modules[0], handle)
  {
    hide GuestModuleGraph.LoadableFrom, Normalize, F.Resolve, IEquals, Links, GuestModuleGraph.Consistent, Names, Files;
    hide Held, GuestModuleGraph.IsSupplied;
    PageDivides();
    g := new GuestModuleGraph(Names(), Files(), "", map[], [], [], PAGE, true);
    BIsLoadable(g);
    NameIsNormal('b');
    assert Dll1('b') == "b.dll";
    ghost var holder;
    handle, holder := g.LoadLibrary("b.dll");
  }

  // load_library of b, then of a, which imports from b; then process_detach tells b first.
  method DetachedBeforeItsOwner() returns (before: Table, events: seq<Event>)
    ensures |before| == 2 && before[0].state == Attached && before[1].state == Attached && 0 in before[1].dependencies
    ensures exists i, j :: 0 <= i < j < |events| && events[i] == DetachEvent(0) && events[j] == DetachEvent(1)
  {
    hide GuestModuleGraph.LoadableFrom, GuestModuleGraph.Valid, Normalize, F.Resolve, IEquals, HeldUntil, OnlyB;
    hide DetachedInOrder, NoneOut, Links, GuestModuleGraph.IsSupplied;
    var g, _ := LoadB();
    ghost var first := g.modules;
    NextIsLoadable(g, first, 1, A);
    NameIsNormal('a');
    assert Dll1('a') == "a.dll";
    OneIs(first);
    var handle, holder := g.LoadLibrary("a.dll");
    before := g.modules;
    ALinked(g, first, before);
    ghost var start := g.events;
    ghost var log := g.ProcessDetach();
    events := g.events;
    ToldBefore(before, log, start, events);
  }

  lemma ToldBefore(before: Table, log: seq<nat>, start: seq<Event>, events: seq<Event>)
    requires DetachedInOrder(before, log) && HeldUntil(before, 1, 0) && Lists(before, 1, 0) && IsAttached(before, 0)
    requires events == start + DetachEvents(log)
    ensures exists i, j :: 0 <= i < j < |events| && events[i] == DetachEvent(0) && events[j] == DetachEvent(1)
  {
    hide HeldUntil;
    var b :| 0 <= b < |log| && log[b] == 1 && 0 in log[..b];
    var a :| 0 <= a < b && log[a] == 0;
    var n := |start|;
    assert events[n + a] == DetachEvent(0) && events[n + b] == DetachEvent(1);
  }

  lemma OneIs(ms: Table)
    requires OnlyB(ms)
    ensures |ms| == 1
  {
  }

  lemma ALinked(g: GuestModuleGraph, first: Table, before: Table)
    requires g.Valid() && !g.tornDown && g.modules == before && OnlyB(first) && |before| == 2
    requires before[1].info == A && Links(first, before, 1) && before[1].state == Attached && before[1].dynamicRefs > 0
    requires before[0].dynamicRefs > 0 
    ensures 0 in before[1].dependencies && before[0].state == Attached && HeldUntil(before, 1, 0)
  {
    ImportOfBReady(first);
    assert SuppliesImport(first, 0, before[1].info.imports, 0);
    DynamicIsSlack(before, 1);
    ReferredGoesInTurn(before, 1, 0);
  }

  // load_pe_module of c: n, which it imports from, is loaded first and bound to b; then c
  // fails, n is dropped with it, and b keeps a reference although nothing depends on it.
  method ReferenceLeftBehind() returns (before: Table, after: Table)
    ensures |before| == |after| == 1 && before[0].staticRefs < after[0].staticRefs
    ensures Dependents(before, {}, 0) == Dependents(after, {}, 0) == {}
  {
    hide GuestModuleGraph.Loadable, Normalize, F.Resolve, IEquals, GuestModuleGraph.LoadsNested;
    hide GuestModuleGraph.HasNowhere;
    var g, _ := LoadB();
    before := g.modules;
    NoSelfDependent(g.modules, g.rank, g.clock);
    g.SettledLoads();
    assert Dll1('c') == "c.dll";
    NotNamed(before, 'c');
    FileOf(g, 3);
    CLoadsNested(g, before);
    CHasNowhere(g);
    var found := g.LoadPeModule("c.dll", Profile, "", Dll(C));
    after := g.modules;
    g.BothParts();
    NoSelfDependent(g.modules, g.rank, g.clock);
  }

  lemma NoSelfDependent(ms: Table, rank: seq<nat>, clock: nat)
    requires Sound(ms, rank, clock, {}, multiset{}) && |ms| == 1
    ensures Dependents(ms, {}, 0) == {}
  {
    assert 0 !in ms[0].dependencies;
  }

  lemma CHasNowhere(g: GuestModuleGraph)
    requires IsSample(g)
    ensures g.HasNowhere(C.imports, "")
  {
    hide F.Resolve, Normalize, IEquals, Files;
    var i := Import("m.dll", X, 16);
    assert C.imports[1] == i;
    NameIsNormal('m');
    assert Dll1('m') == "m.dll";
    NamesDiffer('b', 'm'); NamesDiffer('a', 'm'); NamesDiffer('n', 'm'); NamesDiffer('c', 'm');
    NamesDiffer('d', 'm'); NamesDiffer('e', 'm');
    assert !IsListed(g.Listed(), "m.dll") by {
      assert g.Listed() == [Dll1('b'), Dll1('a'), Dll1('n'), Dll1('c'), Dll1('d'), Dll1('e')];
    }
    assert !g.OnDrive("m.dll", "");
    if g.BuiltinFound("m.dll", X) { F.FoundIsRegistered([], BuiltinQuery("m.dll", X), F.MAX_FORWARDER_DEPTH); }
    assert g.Nowhere(i, "");
  }

  lemma CLoadsNested(g: GuestModuleGraph, ms: Table)
    requires IsSample(g) && OnlyB(ms)
    ensures g.LoadsNested(ms, [], "c.dll", Profile, "", Dll(C), 0)
  {
    hide g.LoadableAt, Normalize;
    PageDivides();
    ImportOfBReady(ms);
    OneMapped(ms[0]);
    assert ms == [ms[0]];
    assert SuppliesImport(ms, 0, N.imports, 0);
    forall base: nat ensures g.LoadableAt(ms, [], "c.dll", Profile, "", C, base, N) { NLoadableAt(g, ms, base); }
  }

  lemma NLoadableAt(g: GuestModuleGraph, ms: Table, base: nat)
    requires IsSample(g) && OnlyB(ms)
    ensures g.LoadableAt(ms, [], "c.dll", Profile, "", C, base, N)
  {
    hide g.ProfileDll, AllReady, Normalize, IEquals;
    PageDivides();
    FileOf(g, 2);
    NameIsNormal('n');
    assert Dll1('n') == "n.dll" && Dll1('c') == "c.dll";
    var m := g.Opened("c.dll", Profile, "", C, At(base, PAGE));
    ImportOfBReady(ms);
    PushingKeepsReady(ms, ms + [m]);
    ReadyStays(ms, ms + [m], N.imports);
    assert ms == [ms[0]];
    TwoMapped(ms[0], m);
    NotNamed(ms, 'n');
    NamesDiffer('c', 'n');
  }

  // Only b is left to load on: it is held once, and neither d nor e depends on it.
  ghost predicate ThreeLoaded(ms: Table) {
    && |ms| == 3 && ms[0].dynamicRefs == 1 && ms[0].staticRefs == 0 && ms[2].dynamicRefs > 0
    && ms[0].info == B && ms[1].info == D && ms[2].info == E && Named(ms[0], "b.dll") && Named(ms[1], "d.dll")
    && Named(ms[2], "e.dll") && ms[0].Live() && ms[0].image.At? && ms[0].image.size == PAGE
    && |ms[2].bound| == 1 && ms[2].bound[0].provider == Some(1)
    && AllSupplied(ms, [], E.imports, ms[2].bound)
  }

  // load_library of b, of d, which forwards x to b, and of e, which imports x from d. Then
  // free_library of b unmaps it: e is still attached, and what it has imported lies nowhere.
  method ImportedAddressUnmapped() returns (after: Table)
    ensures |after| == 3 && after[2].state == Attached && after[2].info.imports == [Import("d.dll", X, 8)]
    ensures |after[2].bound| == 1 && after[2].bound[0].provider == Some(1)
    ensures forall i :: 0 <= i < |after| ==> !LiesIn(after[i], after[2].bound[0].address)
  {
    hide GuestModuleGraph.LoadableFrom, GuestModuleGraph.Valid, Normalize, F.Resolve, IEquals, OnlyB, NoneOut, Links;
    hide GuestModuleGraph.IsSupplied, AllSupplied, ThreeLoaded, Evolves, OneMore, Names, Files;
    var g, handle := LoadB();
    ghost var first := g.modules;
    DIsLoadable(g, first);
    NormalNames();
    OneIs(first);
    var _, second := g.LoadLibrary("d.dll");
    ghost var two := g.modules;
    DLoaded(g, first, two);
    EIsLoadable(g, two);
    var _, third := g.LoadLibrary("e.dll");
    ghost var three := g.modules;
    ELoaded(g, first, two, three);
    SameHandle(g, first, two, three, handle);
    var freed, holder, log := g.FreeLibrary(handle);
    after := g.modules;
    BGone(g, three, after, handle, holder);
  }

  lemma NormalNames()
    ensures Normalize("b.dll") == "b.dll" && Normalize("d.dll") == "d.dll" && Normalize("e.dll") == "e.dll"
    ensures !IEquals("d.dll", "b.dll")
  {
    NameIsNormal('b');
    NameIsNormal('d');
    NameIsNormal('e');
    NamesDiffer('d', 'b');
    assert Dll1('b') == "b.dll" && Dll1('d') == "d.dll" && Dll1('e') == "e.dll";
  }

  lemma DIsLoadable(g: GuestModuleGraph, ms: Table)
    requires IsSample(g) && OnlyB(ms)
    ensures g.LoadableFrom(Profile, ms, [], "d.dll", g.mainDirectory, D)
  {
    hide g.LoadableFrom;
    NextIsLoadable(g, ms, 4, D);
  }

  lemma HeldIsAttached(g: GuestModuleGraph, i: nat)
    requires g.Valid() && !g.tornDown && i < |g.modules| && g.modules[i].dynamicRefs > 0
    ensures g.modules[i].state == Attached && g.modules[i].image.At? && g.modules[i].image.base > 0
  {
    g.LiveOwns(i);
  }

  lemma OneExport(e: Export)
    requires Matches(e, X)
    ensures FirstExport([e], X) == Some(e)
  {
  }

  // What is loaded after d: b is as it was, but for being attached, and d depends on nothing.
  ghost predicate TwoLoaded(ms: Table) {
    && |ms| == 2 && ms[0].dynamicRefs == 1 && ms[0].staticRefs == 0 && ms[0].info == B && ms[1].info == D
    && AttachedNamed(ms, 0, "b.dll", Profile) && AttachedNamed(ms, 1, "d.dll", Profile)
    && ms[0].image.At? && ms[0].image.base > 0 && ms[0].image.size == PAGE
    && ms[1].image.At? && ms[1].image.size == PAGE
  }

  lemma NoBindings(before: Table, after: Table, index: nat, d: nat)
    requires Links(before, after, index) && after[index].info.imports == []
    ensures d !in after[index].dependencies
  {
    hide SuppliesImport;
    assert after[index].bound == [];
  }

  lemma DLoaded(g: GuestModuleGraph, first: Table, two: Table)
    requires IsSample(g) && OnlyB(first) && first[0].dynamicRefs == 1 && first[0].staticRefs == 0
    requires g.modules == two && g.Valid() && !g.tornDown && Evolves(first, two) && OneMore(first, two, Some(1))
    requires g.LoadedAs(first, two, D) && AttachedNamed(two, 1, "d.dll", Profile)
    ensures TwoLoaded(two)
  {
    hide IEquals, Links, g.IsSupplied, g.Valid, NoneOut, AlignUp;
    PageDivides();
    assert two[1].info.imports == [];
    NoBindings(first, two, 1, 0);
    assert Evolved(first[0], two[0]);
    HeldIsAttached(g, 0);
  }

  lemma EIsLoadable(g: GuestModuleGraph, ms: Table)
    requires IsSample(g) && TwoLoaded(ms)
    ensures g.LoadableFrom(Profile, ms, [], "e.dll", g.mainDirectory, E)
    ensures SuppliesImport(ms, 1, E.imports, 0)
  {
    hide g.ProfileDll, IEquals, Normalize, Answerable, Offers;
    FileOf(g, 5);
    NormalNames();
    ForwardAnswers(ms);
    assert ImportReady(ms, E.imports[0]);
    assert ms == [ms[0]] + [ms[1]];
    TwoMapped(ms[0], ms[1]);
    assert Dll1('b') == "b.dll" && Dll1('d') == "d.dll" && Dll1('e') == "e.dll";
    NotAnother(ms[0], 'b', 'e');
    NotAnother(ms[1], 'd', 'e');
  }

  lemma ForwardAnswers(ms: Table)
    requires TwoLoaded(ms)
    ensures Offers(ms, 1, "d.dll", X) && Answerable(ms, "d.dll", X, [], 0)
  {
    hide IEquals, Normalize, FirstExport;
    NormalNames();
    OneExport(B.exports[0]);
    OneExport(D.exports[0]);
    var trail := [] + [Visit("d.dll", X)];
    assert LeadsToAddress(ms, 0, X, trail + [Visit("b.dll", X)], 1);
    assert Offers(ms, 0, "b.dll", X);
    assert Answerable(ms, "b.dll", X, trail, 1);
    assert LeadsToAddress(ms, 1, X, trail, 0);
    assert !SameVisit([], "d.dll", X);
  }

  lemma NotAnother(m: LoadedModule, c: char, d: char)
    requires Letter(c) && Letter(d) && c != d && Named(m, Dll1(c))
    ensures !Named(m, Dll1(d))
  {
    NamesDiffer(c, d);
    if IEquals(m.name, Dll1(d)) { IEqualsTransitive(m.name, Dll1(c), Dll1(d)); }
  }

  lemma ELoaded(g: GuestModuleGraph, first: Table, two: Table, three: Table)
    requires IsSample(g) && TwoLoaded(two)
    requires g.modules == three && g.Valid() && !g.tornDown && Evolves(two, three) && OneMore(two, three, Some(2))
    requires g.LoadedAs(two, three, E) && AttachedNamed(three, 2, "e.dll", Profile)
    requires SuppliesImport(two, 1, E.imports, 0)
    ensures ThreeLoaded(three) && MappingsApart(three) && three[2].bound[0].resolved
    ensures three[0].dynamicRefs == 1 && three[0].Refs() == 1
  {
    hide IEquals, AllSupplied, SuppliesImport, g.Valid, NoneOut, AlignUp;
    assert Evolved(two[0], three[0]) && Evolved(two[1], three[1]);
    assert SuppliesImport(two, 1, three[2].info.imports, 0);
    OnlyProvider(two, three);
    HeldIsAttached(g, 0);
    StateFacts(g);
  }

  lemma StateFacts(g: GuestModuleGraph)
    requires g.Valid()
    ensures MappingsApart(g.modules)
    ensures forall i: nat, k: nat :: i < |g.modules| && Bindable(g.modules[i]) && k < |g.modules[i].bound| ==>
      g.modules[i].bound[k].resolved
  {
    forall i: nat, k: nat | i < |g.modules| && Bindable(g.modules[i]) && k < |g.modules[i].bound|
      ensures g.modules[i].bound[k].resolved
    {
      assert SlotsBound(g.modules, i);
      assert SlotBound(g.modules, i, k);
    }
  }

  lemma OnlyProvider(two: Table, three: Table)
    requires Links(two, three, 2) && |three[2].bound| == 1 && three[2].bound[0].provider == Some(1)
    ensures 0 !in three[2].dependencies
  {
    hide SuppliesImport;
    assert three[2].bound[..0] == [];
    assert ProviderCount(three[2].bound, 0) == 0;
  }

  // The handle of b is still b's, and nobody else's.
  lemma SameHandle(g: GuestModuleGraph, first: Table, two: Table, three: Table, handle: nat)
    requires g.modules == three && ThreeLoaded(three) && MappingsApart(three)
    requires |first| == 1 && |two| == 2 && Owns(first[0], handle) && Evolves(first, two) && Evolves(two, three)
    ensures forall holder :: g.HandleOf(holder, handle) ==> holder == Guest(0)
  {
    hide IEquals, AllSupplied;
    assert Evolved(first[0], two[0]) && Evolved(two[0], three[0]);
    assert Owns(three[0], handle);
    forall i | 0 <= i < |three| && Owns(three[i], handle) ensures i == 0 {
      assert i > 0 ==> Apart(three[0].image, three[i].image);
    }
  }

  // The address e has imported is where b is mapped.
  lemma AddressOfB(ms: Table)
    requires ThreeLoaded(ms) && ms[2].bound[0].resolved
    ensures ms[2].bound[0].address == ms[0].image.base
  {
    hide IEquals, F.Resolve, FirstExport, Normalize;
    NormalNames();
    OneExport(B.exports[0]);
    OneExport(D.exports[0]);
    var a := ms[2].bound[0].address;
    assert Supplied(ms, [], "d.dll", X, a, Some(1), MAX_FORWARDER_DEPTH);
    assert SuppliedBySome(ms, [], "b.dll", X, a, MAX_FORWARDER_DEPTH - 1);
    var p :| Supplied(ms, [], "b.dll", X, a, p, MAX_FORWARDER_DEPTH - 1);
    if p.None? { F.FoundIsRegistered([], BuiltinQuery("b.dll", X), F.MAX_FORWARDER_DEPTH); }
    assert Dll1('b') == "b.dll" && Dll1('d') == "d.dll" && Dll1('e') == "e.dll";
    NotAnother(ms[1], 'd', 'b');
    NotAnother(ms[2], 'e', 'b');
    assert p == Some(0);
  }

  lemma BGone(g: GuestModuleGraph, three: Table, after: Table, handle: nat, holder: Holder)
    requires g.modules == after && g.Valid() && !g.tornDown && ThreeLoaded(three) && |after| == 3
    requires MappingsApart(three) && Evolves(three, after) && OneMore(after, three, Some(0)) && !after[0].Live()
    requires three[2].bound[0].resolved
    ensures after[2].state == Attached && after[2].info == E && |after[2].bound| == 1
    ensures after[2].bound[0].provider == Some(1)
    ensures forall i :: 0 <= i < |after| ==> !LiesIn(after[i], after[2].bound[0].address)
  {
    hide IEquals, AllSupplied;
    AddressOfB(three);
    assert Evolved(three[0], after[0]) && Evolved(three[1], after[1]) && Evolved(three[2], after[2]);
    assert Apart(three[0].image, three[1].image) && Apart(three[0].image, three[2].image);
  }
}
