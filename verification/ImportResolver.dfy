// Filling the import address table of a mapped image (src/loader/import_resolver.cpp).
module ImportResolver {
  import opened LittleEndian
  import opened ImageMapper
  import F = Forwarder

  datatype ImportStatus = Resolved | UnknownDll | UnknownSymbol | UnknownOrdinal | NotImpl | UnsupportedMechanism

  datatype Mechanism = Static | Delay

  datatype Import = Import(query: F.Query, slot: nat, mechanism: Mechanism)

  datatype ResolvedImport = ResolvedImport(request: Import, address: F.address, status: ImportStatus)

  datatype ResolveResult = ResolveResult(status: ImportStatus, imports: seq<ResolvedImport>)

  // ---------------------------------------------------------------- specification

  // What a DLL file exports.
  datatype GuestExport = GuestExport(byName: bool, name: string, ordinal: nat)

  // The usable DLL files beside the program that asks, under the names it imports.
  type Beside = map<string, seq<GuestExport>>

  const PLACEHOLDER: F.address := 0x1_0000

  predicate Matches(e: GuestExport, q: F.Query) {
    match q
    case Named(_, symbol) => e.byName && e.name == symbol
    case ByOrdinal(_, ordinal) => e.ordinal == ordinal
  }

  ghost predicate Exports(exports: seq<GuestExport>, q: F.Query) {
    exists k :: 0 <= k < |exports| && Matches(exports[k], q)
  }

  function NotExported(q: F.Query): ImportStatus { if q.ByOrdinal? then UnknownOrdinal else UnknownSymbol }

  // What the registry says about one import, and for a DLL it does not know, the file beside
  // the program.
  ghost function InspectedFor(registry: seq<F.Module>, beside: Beside, i: Import): (r: ResolvedImport)
    ensures r.request == i && (r.status == Resolved <==> r.address != 0)
  {
    if !F.IsRegisteredForwarded(registry, i.query.dll) then
      if i.query.dll !in beside then ResolvedImport(i, 0, UnknownDll)
      else if Exports(beside[i.query.dll], i.query) then ResolvedImport(i, PLACEHOLDER, Resolved)
      else ResolvedImport(i, 0, NotExported(i.query))
    else
      var found := F.Resolve(registry, i.query, F.MAX_FORWARDER_DEPTH);
      if !found.Found? then ResolvedImport(i, 0, NotExported(i.query))
      else if found.entry.address == 0 then ResolvedImport(i, 0, NotImpl)
      else ResolvedImport(i, found.entry.address, Resolved)
  }

  // resolve_imports does not say who asks.
  ghost function Inspected(registry: seq<F.Module>, i: Import): (r: ResolvedImport)
    ensures r.request == i && (r.status == Resolved <==> r.address != 0)
  {
    InspectedFor(registry, map[], i)
  }

  // So inspecting on behalf of a program foretells what resolving will report, exactly unless
  // the import names a DLL nobody has registered and that lies beside the program.
  lemma InspectionForetells(registry: seq<F.Module>, beside: Beside, i: Import)
    ensures InspectedFor(registry, beside, i) == Inspected(registry, i) <==>
            F.IsRegisteredForwarded(registry, i.query.dll) || i.query.dll !in beside
    ensures !F.IsRegisteredForwarded(registry, i.query.dll) ==> Inspected(registry, i).status == UnknownDll
  {
    hide F.IsRegisteredForwarded, F.Resolve;
  }

  // The status of the first entry that is not resolved, or Resolved.
  function FirstProblem(entries: seq<ResolvedImport>): ImportStatus {
    if entries == [] then Resolved
    else if entries[0].status != Resolved then entries[0].status
    else FirstProblem(entries[1..])
  }

  lemma {:induction false} FirstProblemOfAppend(entries: seq<ResolvedImport>, e: ResolvedImport)
    ensures FirstProblem(entries + [e]) ==
            if FirstProblem(entries) != Resolved then FirstProblem(entries) else e.status
  {
    if entries != [] {
      assert (entries + [e])[1..] == entries[1..] + [e];
      FirstProblemOfAppend(entries[1..], e);
    }
  }

  lemma {:induction false} NoProblemMeansAllResolved(entries: seq<ResolvedImport>)
    ensures FirstProblem(entries) == Resolved <==> AllResolved(entries)
  {
    if entries != [] {
      NoProblemMeansAllResolved(entries[1..]);
      assert forall k :: 1 <= k < |entries| ==> entries[k] == entries[1..][k - 1];
    }
  }

  // Table slots of different imports share no byte.
  ghost predicate SlotsApart(imports: seq<Import>) {
    forall j, k :: 0 <= j < k < |imports| ==>
      imports[j].slot + 8 <= imports[k].slot || imports[k].slot + 8 <= imports[j].slot
  }

  ghost predicate InSlot(imports: seq<Import>, i: nat) {
    exists k :: 0 <= k < |imports| && imports[k].slot <= i < imports[k].slot + 8
  }

  // A resolved entry's slot reads back as its address.
  ghost predicate SlotHolds(memory: seq<byte>, e: ResolvedImport) {
    e.status == Resolved ==>
      e.request.slot + 8 <= |memory| && Word(memory, e.request.slot, 8) == e.address
  }

  // Entry e reports on import i: what the registry said stands, except that an address that
  // could not be stored makes a resolved entry unsupported.
  ghost predicate Reports(registry: seq<F.Module>, i: Import, e: ResolvedImport) {
    var seen := Inspected(registry, i);
    && e.request == i && e.address == seen.address
    && (if seen.status == Resolved then e.status == Resolved || e.status == UnsupportedMechanism
        else e.status == seen.status)
  }

  ghost predicate AllReported(registry: seq<F.Module>, imports: seq<Import>, entries: seq<ResolvedImport>) {
    |entries| == |imports| && forall k :: 0 <= k < |imports| ==>
      Reports(registry, imports[k], entries[k]) && (entries[k].status == Resolved ==> entries[k].address != 0)
  }

  ghost predicate AllHold(memory: seq<byte>, entries: seq<ResolvedImport>) {
    forall k :: 0 <= k < |entries| ==> SlotHolds(memory, entries[k])
  }

  ghost predicate OnlySlotsChanged(before: seq<byte>, after: seq<byte>, imports: seq<Import>) {
    |before| == |after| && forall i :: 0 <= i < |after| && !InSlot(imports, i) ==> after[i] == before[i]
  }

  ghost predicate AllResolved(entries: seq<ResolvedImport>) {
    forall k :: 0 <= k < |entries| ==> entries[k].status == Resolved
  }

  // ---------------------------------------------------------------- the resolver

  // inspect_imports. Without a requester there is nothing beside it.
  method InspectImports(registry: seq<F.Module>, beside: Beside, imports: seq<Import>) returns (result: ResolveResult)
    ensures |result.imports| == |imports|
    ensures forall k :: 0 <= k < |imports| ==> result.imports[k] == InspectedFor(registry, beside, imports[k])
    ensures result.status == FirstProblem(result.imports)
  {
    hide F.IsRegisteredForwarded, F.Resolve;
    var entries, status := [], Resolved;
    for k := 0 to |imports|
      invariant |entries| == k
      invariant forall j :: 0 <= j < k ==> entries[j] == InspectedFor(registry, beside, imports[j])
      invariant status == FirstProblem(entries)
    {
      var entry := ResolvedImport(imports[k], 0, Resolved);
      if !F.IsRegisteredForwarded(registry, imports[k].query.dll) {
        if imports[k].query.dll !in beside { entry := entry.(status := UnknownDll); }
        else {
          var offered := IsExported(beside[imports[k].query.dll], imports[k].query);
          if offered { entry := entry.(address := PLACEHOLDER); }
          else { entry := entry.(status := NotExported(imports[k].query)); }
        }
      } else {
        var lookup := F.FindExportForwarded(registry, imports[k].query);
        if !lookup.found {
          entry := entry.(status := NotExported(imports[k].query));
        } else if lookup.entry.address == 0 {
          entry := entry.(status := NotImpl);
        } else {
          entry := entry.(address := lookup.entry.address);
        }
      }
      FirstProblemOfAppend(entries, entry);
      if entry.status != Resolved && status == Resolved { status := entry.status; }
      entries := entries + [entry];
    }
    return ResolveResult(status, entries);
  }

  method IsExported(exports: seq<GuestExport>, q: F.Query) returns (found: bool)
    ensures found <==> Exports(exports, q)
  {
    for k := 0 to |exports|
      invariant forall j :: 0 <= j < k ==> !Matches(exports[j], q)
    {
      if Matches(exports[k], q) { return true; }
    }
    return false;
  }

  method PatchAddress(image: MappedImage, entry: ResolvedImport) returns (patched: ResolvedImport)
    requires image.WellFormed() && entry.status == Resolved
    modifies image.memory, image.protection
    ensures patched.request == entry.request && patched.address == entry.address
    ensures patched.status == Resolved || patched.status == UnsupportedMechanism
    ensures SlotHolds(image.memory[..], patched)
    ensures forall i :: 0 <= i < image.memory.Length && !(entry.request.slot <= i < entry.request.slot + 8) ==>
              image.memory[i] == old(image.memory[i])
    ensures old(image.WriteXorExecute()) ==> image.WriteXorExecute()
  {
    if entry.request.slot == 0 { return entry.(status := UnsupportedMechanism); }
    Pow256Values();
    var bytes := Encode(entry.address, 8);
    var status := image.WriteImageBytes(entry.request.slot, bytes);
    if status != Patched { return entry.(status := UnsupportedMechanism); }
    PutThenRead(old(image.memory[..]), entry.request.slot, entry.address, 8);
    return entry;
  }

  // Main result. The overall status is Resolved exactly when every entry is; a resolved
  // entry holds the registered, non-zero address; and when no two slots share a byte, each
  // resolved slot reads back as that address and nothing outside the slots has changed.
  method ResolveImports(image: MappedImage, registry: seq<F.Module>, imports: seq<Import>)
    returns (result: ResolveResult)
    requires image.WellFormed()
    modifies image.memory, image.protection
    ensures result.status == Resolved <==> AllResolved(result.imports)
    ensures AllReported(registry, imports, result.imports)
    ensures SlotsApart(imports) ==> AllHold(image.memory[..], result.imports)
    ensures OnlySlotsChanged(old(image.memory[..]), image.memory[..], imports)
    ensures old(image.WriteXorExecute()) ==> image.WriteXorExecute()
  {
    hide *;
    result := InspectImports(registry, map[], imports);
    AsInspected(registry, imports, result.imports);
    var entries, status := result.imports, result.status;
    NoProblemMeansAllResolved(entries);
    Unpatched(registry, imports, entries);
    for k := 0 to |entries|
      invariant |entries| == |imports| && Progress(registry, imports, entries, k)
      invariant status == Resolved <==> AllResolved(entries)
      invariant SlotsApart(imports) ==> AllHold(image.memory[..], entries[..k])
      invariant OnlySlotsChanged(old(image.memory[..]), image.memory[..], imports)
      invariant old(image.WriteXorExecute()) ==> image.WriteXorExecute()
    {
      var patched := PatchEntry(image, registry, imports, entries, k);
      if patched.status != Resolved && status == Resolved { status := patched.status; }
      ReplacedEntry(entries, k, patched);
      entries := entries[k := patched];
    }
    assert entries[..|entries|] == entries;
    Complete(registry, imports, entries);
    return ResolveResult(status, entries);
  }

  lemma AsInspected(registry: seq<F.Module>, imports: seq<Import>, entries: seq<ResolvedImport>)
    requires |entries| == |imports|
    requires forall k :: 0 <= k < |imports| ==> entries[k] == InspectedFor(registry, map[], imports[k])
    ensures forall k :: 0 <= k < |imports| ==> entries[k] == Inspected(registry, imports[k])
  {
    hide InspectedFor;
  }

  // The entries before k have been dealt with; those from k on are as inspected.
  ghost predicate Progress(registry: seq<F.Module>, imports: seq<Import>, entries: seq<ResolvedImport>, k: nat) {
    && k <= |entries| == |imports|
    && (forall j :: 0 <= j < |entries| ==> entries[j].request == imports[j])
    && (forall j :: k <= j < |entries| ==> entries[j] == Inspected(registry, imports[j]))
    && (forall j :: 0 <= j < k ==> Reports(registry, imports[j], entries[j]))
  }

  lemma Unpatched(registry: seq<F.Module>, imports: seq<Import>, entries: seq<ResolvedImport>)
    requires |entries| == |imports| && forall j :: 0 <= j < |imports| ==> entries[j] == Inspected(registry, imports[j])
    ensures Progress(registry, imports, entries, 0)
    ensures forall memory :: AllHold(memory, entries[..0]) && OnlySlotsChanged(memory, memory, imports)
  {
    hide Inspected;
  }

  lemma Complete(registry: seq<F.Module>, imports: seq<Import>, entries: seq<ResolvedImport>)
    requires Progress(registry, imports, entries, |imports|)
    ensures AllReported(registry, imports, entries)
  {
    hide Inspected;
    forall k | 0 <= k < |imports| && entries[k].status == Resolved ensures entries[k].address != 0 {
      ReportedAddress(registry, imports[k], entries[k]);
    }
  }

  // One turn of the patching loop.
  method PatchEntry(image: MappedImage, ghost registry: seq<F.Module>, ghost imports: seq<Import>,
                    entries: seq<ResolvedImport>, k: nat)
    returns (patched: ResolvedImport)
    requires image.WellFormed() && k < |entries| && Progress(registry, imports, entries, k)
    modifies image.memory, image.protection
    ensures entries[k].status != Resolved ==> patched.status != Resolved
    ensures Progress(registry, imports, entries[k := patched], k + 1)
    ensures SlotsApart(imports) && old(AllHold(image.memory[..], entries[..k])) ==>
              AllHold(image.memory[..], entries[k := patched][..k + 1])
    ensures forall before :: OnlySlotsChanged(before, old(image.memory[..]), imports) ==>
              OnlySlotsChanged(before, image.memory[..], imports)
    ensures old(image.WriteXorExecute()) ==> image.WriteXorExecute()
  {
    hide F.IsRegisteredForwarded, F.Resolve, Word, Inspected, SlotHolds, InSlot, Reports, SlotsApart;
    ghost var before := image.memory[..];
    // An inspected entry is resolved exactly when its address is not zero, so the extra
    // test the loader makes for delayed imports never decides anything.
    if entries[k].status != Resolved || (entries[k].request.mechanism == Delay && entries[k].address == 0) {
      UnresolvedHoldsNothing(before, entries[k]);
      ExtendHold(before, entries, k, entries[k]);
      UnpatchedReports(registry, imports[k]);
      return entries[k];
    }
    patched := PatchAddress(image, entries[k]);
    PatchedReports(registry, imports[k], patched);
    if SlotsApart(imports) && AllHold(before, entries[..k]) {
      forall j | 0 <= j < k ensures SlotHolds(image.memory[..], entries[j]) {
        assert entries[..k][j] == entries[j];
        SlotUntouched(before, image.memory[..], imports, entries[j], j, k);
      }
      ExtendHold(image.memory[..], entries, k, patched);
    }
    forall i | 0 <= i < image.memory.Length && !InSlot(imports, i) ensures image.memory[i] == before[i] {
      NotInSlot(imports, k, i);
    }
  }

  lemma ExtendHold(memory: seq<byte>, entries: seq<ResolvedImport>, k: nat, e: ResolvedImport)
    requires k < |entries| && SlotHolds(memory, e)
    ensures AllHold(memory, entries[..k]) ==> AllHold(memory, entries[k := e][..k + 1])
  {
    hide SlotHolds;
    if AllHold(memory, entries[..k]) {
      var after := entries[k := e][..k + 1];
      forall j | 0 <= j < |after| ensures SlotHolds(memory, after[j]) {
        if j < k { assert entries[..k][j] == after[j]; }
      }
    }
  }

  lemma UnpatchedReports(registry: seq<F.Module>, i: Import)
    ensures Inspected(registry, i).status != Resolved || Inspected(registry, i).address == 0 ==>
      Reports(registry, i, Inspected(registry, i))
  {
  }

  lemma PatchedReports(registry: seq<F.Module>, i: Import, e: ResolvedImport)
    requires Inspected(registry, i).status == Resolved && e.request == i && e.address == Inspected(registry, i).address
    requires e.status == Resolved || e.status == UnsupportedMechanism
    ensures Reports(registry, i, e)
  {
  }

  lemma ReportedAddress(registry: seq<F.Module>, i: Import, e: ResolvedImport)
    requires Reports(registry, i, e) && e.status == Resolved
    ensures e.address != 0
  {
  }

  lemma UnresolvedHoldsNothing(memory: seq<byte>, e: ResolvedImport)
    ensures e.status != Resolved ==> SlotHolds(memory, e)
  {
  }

  lemma NotInSlot(imports: seq<Import>, k: nat, i: nat)
    requires k < |imports| && !InSlot(imports, i)
    ensures !(imports[k].slot <= i < imports[k].slot + 8)
  {
  }

  lemma ReplacedEntry(entries: seq<ResolvedImport>, k: nat, e: ResolvedImport)
    requires k < |entries| && (entries[k].status != Resolved ==> e.status != Resolved)
    ensures AllResolved(entries[k := e]) <==> AllResolved(entries) && e.status == Resolved
  {
    if AllResolved(entries[k := e]) {
      assert entries[k := e][k] == e;
      forall j | 0 <= j < |entries| ensures entries[j].status == Resolved {
        assert entries[k := e][j].status == Resolved;
      }
    }
  }

  lemma SlotUntouched(before: seq<byte>, after: seq<byte>, imports: seq<Import>, e: ResolvedImport, j: nat, k: nat)
    requires |before| == |after| && j < k < |imports| && SlotsApart(imports)
    requires e.request == imports[j] && SlotHolds(before, e)
    requires forall i :: 0 <= i < |before| && !(imports[k].slot <= i < imports[k].slot + 8) ==> after[i] == before[i]
    ensures SlotHolds(after, e)
  {
    if e.status == Resolved { WordFrame(after, before, imports[j].slot, imports[j].slot, 8); }
  }
}
