// Which modules supply the imports of a module that is being loaded, and when loading must
// succeed (src/loader/module_graph.cpp).
module GraphLinks {
  import opened Ascii
  import opened ImageMapper
  import opened GraphState
  import opened GraphSteps
  import opened ModuleNames

  // A query that is neither void, nor too deep, nor under way already.
  ghost predicate Askable(name: string, target: Target, visits: seq<Visit>, depth: nat) {
    name != [] && depth < MAX_FORWARDER_DEPTH && !SameVisit(visits, name, target)
  }

  // Loaded profile modules answer the query, over any number of forwarders.
  ghost predicate Answerable(ms: Table, name: string, target: Target, visits: seq<Visit>, depth: nat)
    decreases MAX_FORWARDER_DEPTH - depth, 1
  {
    && Askable(name, target, visits, depth)
    && exists g :: Offers(ms, g, name, target) && LeadsToAddress(ms, g, target, visits + [Visit(name, target)], depth)
  }

  // What module g exports as the target is an address of its own, or is answered elsewhere.
  ghost predicate LeadsToAddress(ms: Table, g: int, target: Target, trail: seq<Visit>, depth: nat)
    requires depth < MAX_FORWARDER_DEPTH
    decreases MAX_FORWARDER_DEPTH - depth, 0
  {
    0 <= g < |ms|
    && match FirstExport(ms[g].info.exports, target)
       case None => false
       case Some(e) =>
         match e.forward
         case NoForward => ExportAddress(ms[g], e.rva) != 0
         case BadForward => false
         case ForwardTo(dll, next) => Answerable(ms, Normalize(dll), next, trail, depth + 1)
  }

  // A file with these contents exports the target itself.
  ghost predicate ExportsAt(info: DllInfo, target: Target) {
    match FirstExport(info.exports, target)
    case None => false
    case Some(e) => e.forward.NoForward? && e.rva < info.sizeOfImage
  }

  ghost predicate DriveOffers(ms: Table, g: int, name: string, target: Target) {
    0 <= g < |ms| && NamedFinished(ms[g], name, DriveC) && FirstExport(ms[g].info.exports, target).Some?
  }

  // A module of this name has a matching export, but one that leads elsewhere.
  ghost predicate Diverted(ms: Table, name: string, target: Target) {
    exists g :: 0 <= g < |ms| && Named(ms[g], name) && LeadsElsewhere(ms[g], target)
  }

  ghost predicate ImportReady(ms: Table, i: Import) {
    i.slot != 0 && Answerable(ms, Normalize(i.dll), i.target, [], 0)
  }

  ghost predicate AllReady(ms: Table, imports: seq<Import>) {
    forall k :: 0 <= k < |imports| ==> ImportReady(ms, imports[k])
  }

  ghost predicate Fits(ms: Table, info: DllInfo) {
    0 < info.sizeOfImage && |ms| < MAX_LOADED_MODULES && TotalMapped(ms) + info.sizeOfImage <= MAX_MAPPED_BYTES
  }

  ghost predicate Linkable(ms: Table, info: DllInfo) { Fits(ms, info) && AllReady(ms, info.imports) }

  // The imports of the module are bound to whoever offered them when loading began, and its
  // dependencies are those who answered.
  ghost predicate Links(before: Table, after: Table, index: nat) {
    && index < |after| && |after[index].bound| == |after[index].info.imports|
    && (forall k, g: nat {:trigger SuppliesImport(before, g, after[index].info.imports, k)} ::
          SuppliesImport(before, g, after[index].info.imports, k) ==>
            after[index].bound[k].provider == Some(g) && g in after[index].dependencies)
    && forall d :: d in after[index].dependencies ==> ProviderCount(after[index].bound, d) > 0
  }

  ghost predicate SuppliesImport(ms: Table, g: nat, imports: seq<Import>, k: int) {
    0 <= k < |imports| && Offers(ms, g, Normalize(imports[k].dll), imports[k].target)
  }

  // Every resolved import comes from the module that offered it when resolving began, if any.
  ghost predicate FromOfferers(before: Table, imports: seq<Import>, entries: seq<ResolvedImport>) {
    |entries| <= |imports|
    && forall k, g: nat :: 0 <= k < |entries| && SuppliesImport(before, g, imports, k) && entries[k].resolved ==>
         entries[k].provider == Some(g)
  }

  // The first module loaded since has these contents.
  ghost predicate LoadedFirst(before: Table, after: Table, info: DllInfo) {
    |before| < |after| && after[|before|].info == info && Links(before, after, |before|)
  }

  ghost predicate NoneOut(ms: Table) { forall i :: 0 <= i < |ms| ==> ms[i].Live() && ms[i].state != Resolving }

  // ---------------------------------------------------------------- what growing keeps

  // Modules that have finished loading are still what they were.
  ghost predicate KeepsReady(before: Table, after: Table) {
    |before| <= |after| && forall i :: 0 <= i < |before| && Bindable(before[i]) ==> SameOffer(before[i], after[i])
  }

  ghost predicate SameOffer(a: LoadedModule, b: LoadedModule) {
    b.name == a.name && b.provider == a.provider && b.info == a.info && b.image == a.image && b.state == a.state
  }

  lemma GrowingKeepsReady(before: Table, after: Table, owner: Option<nat>)
    requires GrowsFor(before, after, owner)
    ensures KeepsReady(before, after)
  {
    forall i | 0 <= i < |before| && Bindable(before[i]) ensures SameOffer(before[i], after[i]) {
      if owner != Some(i) { assert after[i] == before[i].(staticRefs := after[i].staticRefs); }
    }
  }

  lemma PushingKeepsReady(before: Table, pushed: Table)
    requires |pushed| == |before| + 1 && pushed[..|before|] == before
    ensures KeepsReady(before, pushed)
  {
    forall i | 0 <= i < |before| ensures SameOffer(before[i], pushed[i]) { assert pushed[..|before|][i] == pushed[i]; }
  }

  lemma OffersStay(before: Table, after: Table, g: int, name: string, target: Target)
    requires KeepsReady(before, after)
    ensures Offers(before, g, name, target) ==> Offers(after, g, name, target)
    ensures DriveOffers(before, g, name, target) ==> DriveOffers(after, g, name, target)
  {
    hide FirstExport, IEquals;
    if 0 <= g < |before| && Bindable(before[g]) { assert SameOffer(before[g], after[g]); }
  }

  lemma {:induction false} AnswerStays(before: Table, after: Table, name: string, target: Target, visits: seq<Visit>,
                                       depth: nat)
    requires KeepsReady(before, after) && Answerable(before, name, target, visits, depth)
    ensures Answerable(after, name, target, visits, depth)
    decreases MAX_FORWARDER_DEPTH - depth
  {
    hide FirstExport, IEquals, Normalize, SameVisit, KeepsReady, Offers;
    var trail := visits + [Visit(name, target)];
    var g :| Offers(before, g, name, target) && LeadsToAddress(before, g, target, trail, depth);
    OffersStay(before, after, g, name, target);
    OfferIsFinished(before, after, g, name, target);
    var e := FirstExport(before[g].info.exports, target).value;
    if e.forward.ForwardTo? {
      AnswerStays(before, after, Normalize(e.forward.dll), e.forward.target, trail, depth + 1);
    }
    assert LeadsToAddress(after, g, target, trail, depth);
  }

  lemma OfferIsFinished(before: Table, after: Table, g: int, name: string, target: Target)
    requires KeepsReady(before, after) && Offers(before, g, name, target)
    ensures 0 <= g < |before| <= |after| && SameOffer(before[g], after[g])
  {
    hide FirstExport, IEquals;
  }

  lemma ReadyStays(before: Table, after: Table, imports: seq<Import>)
    requires KeepsReady(before, after) && AllReady(before, imports)
    ensures AllReady(after, imports)
  {
    hide KeepsReady, Answerable, Normalize;
    forall k | 0 <= k < |imports| ensures ImportReady(after, imports[k]) {
      assert ImportReady(before, imports[k]);
      AnswerStays(before, after, Normalize(imports[k].dll), imports[k].target, [], 0);
    }
  }

  lemma LoadedFirstStays(before: Table, middle: Table, after: Table, info: DllInfo)
    requires Grows(middle, after)
    ensures LoadedFirst(before, middle, info) ==> LoadedFirst(before, after, info)
  {
    hide SuppliesImport;
    if |before| < |middle| {
      assert after[|before|] == middle[|before|].(staticRefs := after[|before|].staticRefs);
    }
  }

  lemma LoadedFirstUntouched(before: Table, middle: Table, after: Table, owner: Option<nat>, info: DllInfo)
    requires SameExports(middle, after) && SameEdges(middle, after, owner) && (owner.Some? ==> owner.value < |before|)
    ensures LoadedFirst(before, middle, info) ==> LoadedFirst(before, after, info)
  {
    hide SuppliesImport;
  }

  lemma SuppliesWhenPushed(before: Table, pushed: Table, g: nat, imports: seq<Import>, k: int)
    requires |pushed| == |before| + 1 && pushed[..|before|] == before && SuppliesImport(before, g, imports, k)
    ensures SuppliesImport(pushed, g, imports, k)
  {
    assert pushed[..|before|][g] == pushed[g];
  }

  lemma ReadyAgain(before: Table, now: Table, owner: Option<nat>, imports: seq<Import>, k: nat)
    requires AllReady(before, imports) && GrowsFor(before, now, owner) && k < |imports|
    ensures imports[k].slot != 0 && Answerable(now, Normalize(imports[k].dll), imports[k].target, [], 0)
    ensures Askable(Normalize(imports[k].dll), imports[k].target, [], 0)
  {
    hide Normalize, GrowsFor, Offers, LeadsToAddress;
    GrowingKeepsReady(before, now, owner);
    ReadyStays(before, now, imports);
    assert ImportReady(now, imports[k]);
  }

  lemma OfferedSince(before: Table, middle: Table, owner: Option<nat>, imports: seq<Import>, k: nat)
    requires GrowsFor(before, middle, owner) && k < |imports|
    ensures forall g: nat :: SuppliesImport(before, g, imports, k) ==>
      Offers(middle, g, Normalize(imports[k].dll), imports[k].target)
  {
    hide GrowsFor, Offers, Normalize;
    GrowingKeepsReady(before, middle, owner);
    forall g: nat | SuppliesImport(before, g, imports, k)
      ensures Offers(middle, g, Normalize(imports[k].dll), imports[k].target)
    {
      OffersStay(before, middle, g, Normalize(imports[k].dll), imports[k].target);
    }
  }

  lemma DivertedStays(before: Table, after: Table, name: string, target: Target)
    requires SameExports(before, after) && Diverted(before, name, target)
    ensures Diverted(after, name, target)
  {
    hide FirstExport, IEquals;
    var g :| 0 <= g < |before| && Named(before[g], name) && LeadsElsewhere(before[g], target);
    assert Named(after[g], name) && LeadsElsewhere(after[g], target);
  }

  lemma NothingFrom(ms: Table, imports: seq<Import>)
    ensures FromOfferers(ms, imports, [])
  {
  }

  lemma FromOfferersMore(before: Table, imports: seq<Import>, entries: seq<ResolvedImport>, e: ResolvedImport)
    requires FromOfferers(before, imports, entries) && |entries| < |imports|
    requires e.resolved ==> forall g: nat :: SuppliesImport(before, g, imports, |entries|) ==> e.provider == Some(g)
    ensures FromOfferers(before, imports, entries + [e])
  {
    hide SuppliesImport;
  }

  lemma LinksFrom(before: Table, pushed: Table, full: Table, imports: seq<Import>, entries: seq<ResolvedImport>)
    requires |pushed| == |before| + 1 && pushed[..|before|] == before && |before| < |full|
    requires FromOfferers(pushed, imports, entries) && |entries| == |imports| && AllResolved(entries)
    requires Bound(pushed, full, Some(|before|), entries) && full[|before|].info.imports == imports
    requires pushed[|before|].dependencies == []
    ensures Links(before, full[|before| := Readied(full[|before|], entries)], |before|)
    ensures |before| !in full[|before|].dependencies
  {
    hide NamedFinished, FirstExport, Normalize, ProviderCount;
    forall k, g: nat | SuppliesImport(before, g, imports, k)
      ensures entries[k].provider == Some(g) && g in full[|before|].dependencies
    {
      assert pushed[..|before|][g] == pushed[g];
      assert SuppliesImport(pushed, g, imports, k);
      assert entries[k].resolved;
      ProviderIsCounted(entries, k, g);
    }
  }

  // While the owner's imports are resolved and nothing is loaded, only its edges are counted.
  ghost predicate CountsExactly(before: Table, after: Table, owner: Option<nat>) {
    owner.Some? ==>
      && owner.value < |before| == |after|
      && forall i: nat :: i < |before| ==>
           after[i].staticRefs == before[i].staticRefs
             + if NewEdge(before[owner.value].dependencies, after[owner.value].dependencies, i) then 1 else 0
  }

  // The owner may have gained one edge.
  ghost predicate OneEdge(before: Table, after: Table, owner: Option<nat>, d: nat) {
    owner.Some? ==>
      && owner.value < |before| && d < |before| && owner.value != d
      && (after == before || (d !in before[owner.value].dependencies && after == WithEdge(before, owner.value, d)))
  }

  lemma CountsOneMore(before: Table, middle: Table, after: Table, owner: Option<nat>, d: nat)
    requires CountsExactly(before, middle, owner) && OneEdge(middle, after, owner, d)
    requires owner.Some? ==> owner.value < |middle| && (forall x :: x in before[owner.value].dependencies ==>
                               x in middle[owner.value].dependencies)
    ensures CountsExactly(before, after, owner)
  {
    if owner.Some? && after != middle {
      assert after[owner.value].dependencies == middle[owner.value].dependencies + [d];
    }
  }

  lemma NoneOutStays(before: Table, after: Table)
    requires NoneOut(before) && AttachesOnly(before, after)
    ensures NoneOut(after)
  {
  }

  lemma NoneOutHeld(ms: Table, i: nat)
    requires NoneOut(ms) && i < |ms|
    ensures NoneOut(HeldOnce(ms, i))
  {
  }

  lemma NoneOutAttached(before: Table, after: Table, log: seq<nat>)
    requires NoneOut(before) && AttachedBy(before, after, log)
    ensures NoneOut(after)
  {
  }

  // A load that leaves a module behind which depends on d ends with more references to d.
  lemma LeftBehindCounts(before: Table, full: Table, after: Table, d: nat)
    requires ExcessKept(before, full) && Grows(before, after) && |after| == |before| && d < |before| < |full|
    requires Excess(after, d) == Excess(full, d) + |LeftBehind(full, |before|, d)|
    requires |before| + 1 < |full| && full[|before| + 1].Live() && d in full[|before| + 1].dependencies
    ensures before[d].staticRefs < after[d].staticRefs
  {
    assert |before| + 1 in LeftBehind(full, |before|, d);
    assert Dependents(after, {}, d) == Dependents(before, {}, d) by {
      forall i | 0 <= i < |before|
        ensures after[i].Live() == before[i].Live() && after[i].dependencies == before[i].dependencies
      {
        assert after[i] == before[i].(staticRefs := after[i].staticRefs);
      }
    }
    assert Excess(before, d) < Excess(after, d);
  }
}
