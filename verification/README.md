# TradutorLinux: verification model

TradutorLinux loads Win32 PE programs on Linux. This project models its cores that keep
state, recurse or compute with untrusted offsets, and proves what they promise. Run
`dafny verify dfyconfig.toml` to check everything.

| files | what they model |
|---|---|
| `GraphState`, `GraphSteps`, `GraphLinks`, `DetachOrder`, `ModuleGraph`, `GraphExamples`, `ModuleNames` | the graph of guest DLLs: loading while resolving imports, reference counts, attaching, the order of detaching, roll back, and three runs of it |
| `LittleEndian`, `Relocations`, `ImageMapper`, `ImportResolver` | placing an image in memory, relocating it in place, page protections, patching the import table |
| `Ascii`, `Forwarder` | export forwarders with a visit stack, against a resolver that has only a depth bound |
| `Catalog`, `JsonText`, `TextSearch`, `CatalogJson` | the application catalog as a JSON file: writer, reader, adding and removing |
| `Tlac`, `TlacDecoder`, `TlacEncoder` | the binary catalog format: a description of the layout, the decoder, and the serializer's layout |
| `FileSystem`, `FileCopy`, `FileExposure`, `PathOrder`, `ProtonStaging` | transactions on a directory tree: exposing the files of a profile, staging an application for Proton |
| `FunctionTrace` | the lock-free table of traced functions, one compare-exchange at a time |
| `ManifestTree`, `ManifestParser` | the AppX manifest: tags, the element stack, and the tree they spell |

How it is modelled:

- Code that changes state is a class or an array method with the source's fields and loops.
  Its contract ties the new state to a specification, and lemmas say what the
  specification means. Code made of expressions is functions.
- Things outside the code are free: whether a guest's entry point succeeds, where the
  system maps an image, whether `mprotect`, a read or a write fails, how many bytes a read
  returns, in which order a directory is listed, which thread moves next.
- Error texts, trace output and timestamps are not modelled; errors are told apart only as
  far as the code acts on the difference.
- So that runs can be exhibited and loading can be shown to succeed, a graph may be told that
  nothing outside gets in its way (`obliging`), and a disk that calls made for one purpose
  never fail, or always do.

Statements one might expect that turned out not to hold; each is given with the condition
under which it does, and shown to fail in a run:

- A module's static count is at least the number of its dependents, not equal to it. Imports
  of the main image count as well, and a failed load leaves one reference behind for each
  module that was loaded on its behalf and depends on the module, and only for those
  (`ModuleGraph.GuestModuleGraph.RollBack`, `GraphSteps.DroppingKeepsCountsExactlyWhen`).
  `GraphExamples.ReferenceLeftBehind` loads such a module.
- What an attached module has imported stays mapped, unless a module it imports from answers
  with an export forwarded elsewhere: the reference goes to the module that forwards, and none
  to the one that holds the address (`ModuleGraph.GuestModuleGraph.ImportsAreMapped`). In
  `GraphExamples.ImportedAddressUnmapped` that one is freed while the importer is attached.
- `process_detach` goes by table index; its comment says owners go before what they depend
  on. An owner goes first if and only if it is not held until the place of its dependency in
  the table, that is, by a chain of owners from there on up to one referred to from elsewhere
  (`ModuleGraph.GuestModuleGraph.ProcessDetach`, `DetachOrder.OwnersGoFirstExactlyWhen`). In
  `GraphExamples.DetachedBeforeItsOwner` a library and then one that imports from it are
  loaded, and the first is told of its end before the second. `free_library`
  always keeps the order.
- `remember_function` can answer true again for one function after a finished reset if and only
  if a call had begun probing before it (`FunctionTrace.ResetIsSafeExactlyWhen`,
  `FunctionTrace.UnsafeResetIsReached`), and while a reset is still going when a call is quicker
  than it (`FunctionTrace.OverlapReturnsTwice`). In every run it answers true exactly once for
  each time the function has come into the table (`FunctionTrace.RunConserves`).
- A rejected exposure, or a failed staging, restores the file system if and only if it could
  query the status of every directory it created, as long as undoing itself does not fail
  (`FileExposure.FileExposure.Materialize`, `ProtonStaging.Stage`). Which other calls fail
  makes no difference. What existed before is never touched. A request and an application that
  leave a directory behind: `FileExposure.OrphanRemains`, `ProtonStaging.StagingLeavesDirectory`.
- A page keeps the reported protection, after mapping and after a patch, if and only if nothing
  else on the range that decides asks for more
  (`ImageMapper.MapImage`, `ImageMapper.MappedImage.WriteImageBytes`). An image
  that passes every check and fails this: `ImageMapper.SharedPageIsAccepted`.

## Model

| member | source | states |
|---|---|---|
| `ModuleGraph.GuestModuleGraph.constructor` | src/loader/module_graph.cpp:301-308 | an empty graph satisfies the invariant |
| `ModuleGraph.GuestModuleGraph.Run` | src/loader/module_graph.cpp:816-1257 | any sequence of resolve, attach, load, free, handle, get_proc_address, detach and reset calls keeps the invariant that the next five rows spell out |
| `ModuleGraph.GuestModuleGraph.CountsCoverDependents` | src/loader/module_graph.cpp:792-803 | in every reachable state a module's static count is at least the number of live modules that list it |
| `ModuleGraph.GuestModuleGraph.NeverCyclic` | src/loader/module_graph.cpp:382-389 | no path of dependencies leads back to its start |
| `ModuleGraph.GuestModuleGraph.InUseIsMapped` | src/loader/module_graph.cpp:712-967 | whatever an attached module, or one with an outstanding library reference, depends on directly or not is attached and mapped |
| `ModuleGraph.GuestModuleGraph.ImportsAreMapped` | src/loader/module_graph.cpp:557-605 | an import of an attached module has a non-zero address in an attached guest it depends on (or itself) or in a built-in module, unless its provider forwards that export elsewhere |
| `ModuleGraph.GuestModuleGraph.LimitsHold` | src/loader/module_graph.cpp:456-482 | at most 256 entries, at most 2 GiB mapped in all, mappings do not overlap |
| `GraphState.RoundedImageFits` | src/loader/module_graph.cpp:472-482 | testing the unrounded image size suffices for the rounded mapping to stay within 2 GiB |
| `GraphState.DependenciesAreAcyclic` | src/loader/module_graph.cpp:792-803 | edges fall in the order in which modules finish resolving, so no cycle of any length exists |
| `GraphState.AttachedReachesMapped` | src/loader/module_graph.cpp:868-967 | along every path from an attached module all are attached and mapped |
| `ModuleGraph.GuestModuleGraph.ReleaseDependency` | src/loader/module_graph.cpp:712-720 | one reference is given back; the module goes exactly when it was the last and it is attached; what goes is told once, each module after all attached ones that depend on it |
| `ModuleGraph.GuestModuleGraph.DetachModule` | src/loader/module_graph.cpp:919-951 | an attached module is notified, then unmapped, then its references are released; others change only by being unloaded when unreferenced, each told once and after its owners |
| `ModuleGraph.GuestModuleGraph.AttachModule` | src/loader/module_graph.cpp:868-917 | success attaches exactly the logged modules, each once and after all its dependencies; failure leaves the module out and no reference leaked; if every callback accepts and no module is out, it succeeds |
| `ModuleGraph.GuestModuleGraph.AttachDependencies` | src/loader/module_graph.cpp:876-881 | on success every dependency is attached; on failure the owner is rejected and its references are released |
| `ModuleGraph.GuestModuleGraph.RejectLoadedModule` | src/loader/module_graph.cpp:953-967 | the rejected module loses its edges, mapping and references, and no attached module is affected |
| `ModuleGraph.GuestModuleGraph.FindLoaded` | src/loader/module_graph.cpp:342-352 | a live module of that name and provider, or there is none |
| `ModuleGraph.GuestModuleGraph.EnsureProfileModule` | src/loader/module_graph.cpp:368-401 | a finished profile module of that name, found without changing anything if loaded already; a new one has the contents of the first listed file and lists whoever offered its imports; none only if no such module has finished loading; one that can be loaded is |
| `ModuleGraph.GuestModuleGraph.EnsureDriveModule` | src/loader/module_graph.cpp:403-437 | a finished drive_c module of that name, found without changing anything if loaded already; a new one is made from the first directory searched that holds the file; none exactly when no directory does or no such module has finished loading; one that can be loaded is |
| `ModuleGraph.GuestModuleGraph.LoadPeModule` | src/loader/module_graph.cpp:439-520 | loading terminates; a loaded module has the contents of the file and lists whoever offered its imports, with the address of each; it must load when all imports are offered and cannot when nobody knows one; a failed load restores all earlier modules except that static counts may have grown, as they do when a module loaded for its first import depends on them |
| `ModuleGraph.GuestModuleGraph.MappedTotal` | src/loader/module_graph.cpp:461-471 | the sum of the mapped sizes, or nothing when it would pass the limit |
| `ModuleGraph.GuestModuleGraph.RollBack` | src/loader/module_graph.cpp:498-516 | the table is cut back to the earlier modules, nothing attached is detached, and by how much each count exceeds the number of dependents grows by exactly the number of dropped modules, other than the failed one, that depend on it |
| `GraphSteps.DroppingKeepsCountsExactlyWhen` | src/loader/module_graph.cpp:498-516 | after a failed load a count exceeds the number of dependents by no more than it did just before the roll back if and only if no module loaded on behalf of the failed one depends on it |
| `GraphState.EdgeKeepsExcess` | src/loader/module_graph.cpp:792-803 | recording a dependency counts it exactly once: no count drifts from the number of dependents |
| `GraphExamples.ReferenceLeftBehind` | src/loader/module_graph.cpp:498-516 | a real load: n is loaded for the first import of c and bound to b, c fails on its second import, and b ends with more references than before and no dependents |
| `ModuleGraph.GuestModuleGraph.RejectProfileModule` | src/loader/module_graph.cpp:722-732 | a name is rejected once, whatever its letter case |
| `ModuleGraph.GuestModuleGraph.ResolveExport` | src/loader/module_graph.cpp:536-710 | terminates for cyclic imports and forwarders; a found address is that of a module of the name which exports the symbol or forwards it, link by link, to one that does; what loaded profile modules can answer, over any number of forwarders, is found and nothing is loaded; otherwise a module of the profile or of drive_c that can be loaded is, and what it exports itself is found; it fails only for a void, cyclic or too deep query, for a matching export that leads nowhere, or when nobody offers the symbol |
| `ModuleGraph.GuestModuleGraph.TryGuest` | src/loader/module_graph.cpp:557-605 | the first matching export decides; a forwarded answer has the address the forwarder leads to and is credited to the forwarding module; only an export that leads elsewhere can fail |
| `ModuleGraph.GuestModuleGraph.ResolveImportsForModule` | src/loader/module_graph.cpp:734-814 | succeeds exactly when every import resolves, and then none names a module nobody knows; it must succeed when all are offered; the owner's new edges are exactly the guests that supply it, each counted once; the main image counts every import |
| `ModuleGraph.GuestModuleGraph.ResolveImports` | src/loader/module_graph.cpp:816-823 | the same for the main image, which is remembered for later retries |
| `ModuleGraph.GuestModuleGraph.ProcessAttach` | src/loader/module_graph.cpp:969-1011 | terminates with at most as many retries as the profile lists DLLs; true means every referenced live module is attached |
| `GraphSteps.FewerLeft` | src/loader/module_graph.cpp:722-732 | rejecting a listed name that was not rejected leaves fewer names the profile may provide |
| `ModuleGraph.GuestModuleGraph.LoadLibrary` | src/loader/module_graph.cpp:1055-1095 | terminates; a handle names an attached and mapped module or a built-in one, and exactly its count grows by one; an attached profile module is returned as it is; a profile or drive_c module that can be loaded is, with its dependencies recorded |
| `ModuleGraph.GuestModuleGraph.FreeLibrary` | src/loader/module_graph.cpp:1137-1158 | succeeds exactly when a reference was outstanding; the module goes exactly when that was the last reference of any kind; whatever goes is told once, owners before what they depend on |
| `ModuleGraph.GuestModuleGraph.GetModuleHandle` | src/loader/module_graph.cpp:1097-1123 | a non-zero handle belongs to a live module or registered built-in of that name, zero means neither exists |
| `ModuleGraph.GuestModuleGraph.GetProcAddress` | src/loader/module_graph.cpp:1160-1225 | a handle of a live guest or a registered built-in asks `resolve_export` for that module from its own directory, the program's handle gives its own export or asks for what that forwards to, a null handle the first built-in export, and any other nothing; no reference is taken and nothing attached |
| `ModuleGraph.GuestModuleGraph.BuiltinEntry` | src/loader/module_graph.cpp:1080-1091 | a built-in name has one handle, added the first time |
| `ModuleGraph.GuestModuleGraph.FindModuleForHandle` | src/loader/module_graph.cpp:354-366 | the live module mapped at the handle, or there is none |
| `ModuleGraph.GuestModuleGraph.ProcessDetach` | src/loader/module_graph.cpp:1013-1020 | every attached module is told exactly once and none stays attached; of two that depend on each other the owner is told first if it is not held until the place of its dependency, and last if it is |
| `DetachOrder.OwnersGoFirstExactlyWhen` | src/loader/module_graph.cpp:1013-1020 | all owners are told before what they depend on if and only if no attached module is held until the place of something it depends on |
| `DetachOrder.DependenciesBehindGoLater` | src/loader/module_graph.cpp:1013-1020 | so they are when dependencies stand behind their owners in the table |
| `DetachOrder.DependencyInFrontGoesFirst` | src/loader/module_graph.cpp:1013-1020 | an owner referred to from elsewhere is told after a dependency that stands in front of it |
| `DetachOrder.LastsStep` | src/loader/module_graph.cpp:919-951 | the modules attached after a turn of the loop are exactly those held until the next place by a chain of owners, however releases cascade |
| `GraphExamples.DetachedBeforeItsOwner` | src/loader/module_graph.cpp:1013-1020 | a run of load_library, load_library and process_detach in which the dependency is told first |
| `GraphExamples.ImportedAddressUnmapped` | src/loader/module_graph.cpp:792-803 | a run of three load_library and one free_library after which an attached module's imported address lies in no mapped module |
| `ModuleGraph.GuestModuleGraph.DiscardLoadedModules` | src/loader/module_graph.cpp:1238-1251 | from any sound table, also with rejected names still loaded, to the empty graph, telling the attached modules as `process_detach` does |
| `ModuleGraph.GuestModuleGraph.Reset` | src/loader/module_graph.cpp:1253-1257 | the empty graph without a main image |
| `ModuleNames.NormalizeModuleName` | src/loader/module_graph.cpp:55-78 | the loops compute trimming, base name, lower case and extension |
| `ModuleNames.NormalizedShape` | src/loader/module_graph.cpp:55-78 | a normalised name is lower case, has no separator and ends in .dll |
| `ModuleNames.NormalizeTwice` | src/loader/module_graph.cpp:55-78 | normalising again changes nothing if and only if the name is empty or does not begin with white space |
| `Forwarder.FindExportForwarded` | src/loader/module.cpp:293-302 | for every registry and query the resolver with visit stack and depth 32 has the outcome of the resolver that only counts to 32 |
| `Forwarder.ForwarderResolver.ResolveForwarder` | src/loader/module.cpp:187-291 | the same at every depth; the stack has the length of the depth, holds no repeats and is restored |
| `Forwarder.ForwarderResolver.HasVisit` | src/loader/module.cpp:144-152 | whether the query is on the stack, up to letter case |
| `Forwarder.CycleFails` | src/loader/module.cpp:144-152 | a query that leads back to itself is an error under every depth bound, so cutting the cycle changes nothing |
| `Forwarder.RevisitIsError` | src/loader/module.cpp:230-240 | a query found on the stack would have failed anyway |
| `Forwarder.DepthBoundOnlyAddsErrors` | src/loader/module.cpp:230-240 | an outcome within depth 32 that is no error is the outcome under every larger bound |
| `Forwarder.FoundIsRegistered` | src/loader/module.cpp:187-291 | what is found is a registered export that forwards no further |
| `Forwarder.ResolveFolds` | src/loader/module.cpp:25-34 | letter case of module names never changes an outcome, fallbacks included |
| `Forwarder.ParseOrdinal` | src/loader/module.cpp:154-185 | the digits after # as a value up to 65535, or refused |
| `Forwarder.ModuleRegistry.RegisterModule` | src/loader/module.cpp:321-348 | names stay distinct up to case and forwarders have no address; refused exactly otherwise |
| `Forwarder.ModuleRegistry.ClearModules` | src/loader/module.cpp:350-353 | the empty registry |
| `LittleEndian.Load` | src/loader/image_mapper.cpp:149-189 | the little-endian value of the bytes |
| `LittleEndian.Store` | src/loader/image_mapper.cpp:191-197 | the bytes of the value, and no other byte changes |
| `LittleEndian.PutThenRead` | src/loader/image_mapper.cpp:149-197 | a stored word reads back |
| `Relocations.ApplyRelocations` | src/loader/image_mapper.cpp:227-313 | the in-place pass computes the walk that sees its own changes, and fails exactly when that does |
| `Relocations.ApplyBlock` | src/loader/image_mapper.cpp:262-305 | the same for the entries of one block |
| `Relocations.IsPatchable` | src/loader/image_mapper.cpp:209-223 | eight bytes inside one section |
| `Relocations.RelocateFollowsTrail` | src/loader/image_mapper.cpp:227-313 | when no target lies in the directory, the pass is one addition per DIR64 entry read beforehand, and fails exactly when the directory is malformed |
| `Relocations.RelocateEffect` | src/loader/image_mapper.cpp:227-313 | with targets apart, each word grows by delta per entry modulo 2^64, every other byte stays, the count is that of the entries |
| `Relocations.CountOfDistinct` | src/loader/image_mapper.cpp:227-313 | a target listed once is added to once |
| `Relocations.RelocateComposes` | src/loader/image_mapper.cpp:227-313 | relocating by d1 and then d2 is relocating by d1 + d2 |
| `Relocations.RelocateInverse` | src/loader/image_mapper.cpp:227-313 | relocating by delta and then -delta restores the image |
| `ImageMapper.AlignUpStaysBelow` | src/loader/image_mapper.cpp:42-45 | rounding up does not pass an aligned bound |
| `ImageMapper.MappedImage.WriteImageBytes` | src/loader/image_mapper.cpp:529-578 | a patch changes only its own bytes and the protection of its pages, and leaves no page writable and executable; a successful one leaves the reported protection everywhere, where that was so before, if and only if nothing in its pages asks for more than each page is to be given; refused exactly outside sections and headers |
| `ImageMapper.PatchInOnePage` | src/loader/image_mapper.cpp:529-578 | a patch within one page meets that condition, whatever shares the page |
| `ImageMapper.NeverWritableAndExecutable` | src/loader/image_mapper.cpp:84-128 | no combination of sections yields a page that is both |
| `ImageMapper.PermissionsForPage` | src/loader/image_mapper.cpp:84-128 | the loop computes the combined permissions of a range |
| `ImageMapper.LayoutIsEffective` | src/loader/image_mapper.cpp:132-137 | when no host page is shared, the protection left by mapping is the reported one everywhere |
| `ImageMapper.LayoutIsEffectiveExactlyWhen` | src/loader/image_mapper.cpp:448-498 | in general a page is left with the reported protection if and only if nothing in the range that decides (the headers, or the last section on that page) asks for more than the page itself is to be given |
| `ImageMapper.RangeIsEffectiveExactlyWhen` | src/loader/image_mapper.cpp:84-137 | a range given its combined protection leaves a page with the reported one if and only if nothing in the range asks for more than the page |
| `ImageMapper.SharedPageIsAccepted` | src/loader/image_mapper.cpp:315-368 | an image that passes every check of map_image and has a page for which that fails |
| `ImageMapper.SharedPageLosesExecution` | src/loader/image_mapper.cpp:453-498 | with a shared page, a page reported executable is mapped without execution |
| `ImageMapper.MapImage` | src/loader/image_mapper.cpp:315-512 | malformed exactly under the listed checks; otherwise headers and sections hold the file's bytes and zeros, relocated, with the protections above, which are the reported ones everywhere if and only if the condition above holds on every page |
| `ImageMapper.BuildRegions` | src/loader/image_mapper.cpp:335-357 | the sections that occupy memory, or refused exactly when one leaves the image or meets the headers |
| `ImageMapper.HasOverlap` | src/loader/image_mapper.cpp:359-368 | true exactly when two sections share a byte |
| `ImageMapper.LoadContents` | src/loader/image_mapper.cpp:390-420 | every byte of memory is the header's, a section's or zero |
| `ImageMapper.ProtectPages` | src/loader/image_mapper.cpp:448-498 | the protections of the layout |
| `ImportResolver.InspectImports` | src/loader/import_resolver.cpp:95-194 | every import is reported as the registry has it, or, for a DLL it does not know, as the DLL beside the program exports it at the placeholder address; the first problem is the overall status |
| `ImportResolver.InspectionForetells` | src/loader/import_resolver.cpp:95-217 | inspecting on behalf of a program reports what resolving will, for every import, if and only if the DLL is registered or not beside the program |
| `ImportResolver.PatchAddress` | src/loader/import_resolver.cpp:21-45 | the slot reads back as the address or the entry is marked, and no other byte changes |
| `ImportResolver.ResolveImports` | src/loader/import_resolver.cpp:196-217 | resolved exactly when every entry is; then, with slots apart, every slot reads back as the entry's non-zero address and nothing outside the slots has changed |
| `JsonText.EscapeString` | src/catalog/app_catalog.cpp:34-59 | the loop computes the escaped text |
| `JsonText.UnescapeString` | src/catalog/app_catalog.cpp:62-150 | the loop computes the text the escapes stand for, surrogate pairs included |
| `JsonText.UnescapeEscape` | src/catalog/app_catalog.cpp:34-150 | unescaping undoes escaping, for every string |
| `JsonText.ParseJsonString` | src/catalog/app_catalog.cpp:173-200 | the scan finds the closing quote that no backslash hides |
| `JsonText.QuotedReads` | src/catalog/app_catalog.cpp:173-200 | a written string reads back and nothing after it is consumed |
| `JsonText.ParseJsonUint64` | src/catalog/app_catalog.cpp:202-217 | the digits as a value, refused beyond 64 bits |
| `JsonText.NumberReads` | src/catalog/app_catalog.cpp:202-217 | every 64-bit number reads back from its decimal text |
| `TextSearch.FindText` | src/catalog/app_catalog.cpp:515-524 | the first place of a text |
| `CatalogJson.WriteCatalog` | src/catalog/app_catalog.cpp:387-421 | the loops write the specified text |
| `CatalogJson.LoadText` | src/catalog/app_catalog.cpp:510-620 | the loops read as the specified parser does, on every text |
| `CatalogJson.LoadMembers` | src/catalog/app_catalog.cpp:538-606 | the same for one object; a key left open at the end of the text is undefined |
| `CatalogJson.MembersRead` | src/catalog/app_catalog.cpp:387-421 | a written object reads back with every member, and what follows it is left |
| `CatalogJson.LoadSave` | src/catalog/app_catalog.cpp:369-620 | loading what was saved gives the entries with a safe id and an executable, in order, whatever bytes their texts hold |
| `CatalogJson.RoundTrip` | src/catalog/app_catalog.cpp:369-620 | it gives exactly the saved list if and only if every entry has a safe id and an executable |
| `CatalogJson.AppCatalog.AddApp` | src/catalog/app_catalog.cpp:318-347 | refused exactly without a safe id and an executable; a known id is replaced in place, a new one appended; ids stay distinct |
| `CatalogJson.AppCatalog.RemoveApp` | src/catalog/app_catalog.cpp:349-358 | true exactly when the id was there; the others stay in order |
| `CatalogJson.AppCatalog.SaveToFile` | src/catalog/app_catalog.cpp:387-421 | the text of the catalog |
| `CatalogJson.AppCatalog.LoadFromFile` | src/catalog/app_catalog.cpp:456-620 | the catalog becomes what the text holds, and empty on failure |
| `CatalogJson.AppCatalog.SavedIsLoaded` | src/catalog/app_catalog.cpp:318-620 | every catalog built by adding and removing reads back as it was |
| `Tlac.LayoutIsUnique` | src/catalog/rust_app_catalog_parser.cpp:336-626 | a buffer represents at most one list of applications |
| `TlacDecoder.Decode` | src/catalog/rust_app_catalog_parser.cpp:336-626 | succeeds exactly on buffers that represent some list (ordered disjoint tables, zero gaps, tiling distinct strings, consecutive arguments, distinct safe ids), and returns that list |
| `TlacDecoder.RepresentsOnce` | src/catalog/rust_app_catalog_parser.cpp:336-626 | so decoding is a left inverse of the layout |
| `TlacDecoder.CheckHeader` | src/catalog/rust_app_catalog_parser.cpp:338-378 | accepts exactly the header of version 1 |
| `TlacDecoder.DescriptorRange` | src/catalog/rust_app_catalog_parser.cpp:210-251 | the checked arithmetic decides whether a table lies in the buffer, in unbounded terms |
| `TlacDecoder.CheckTables` | src/catalog/rust_app_catalog_parser.cpp:379-433 | accepts exactly tables in order that do not overlap |
| `TlacDecoder.CheckGaps` | src/catalog/rust_app_catalog_parser.cpp:429-446 | accepts exactly when every byte outside the tables is zero and some table ends with the buffer |
| `TlacDecoder.ReadStrings` | src/catalog/rust_app_catalog_parser.cpp:448-508 | succeeds exactly when records tile the string table with distinct values; the lookup table holds exactly the records |
| `TlacDecoder.ReadRecord` | src/catalog/rust_app_catalog_parser.cpp:458-487 | one record, refused exactly when none starts there |
| `TlacDecoder.ReadRef` | src/catalog/rust_app_catalog_parser.cpp:165-194 | the referenced string by hash lookup |
| `TlacDecoder.ReadRefByScan` | src/compat/rust_profile_parser.cpp:130-158 | the linear scan gives the same answer on the same records |
| `TlacDecoder.ReadArgs` | src/catalog/rust_app_catalog_parser.cpp:533-545 | succeeds exactly when every argument reference resolves |
| `TlacDecoder.ReadApps` | src/catalog/rust_app_catalog_parser.cpp:547-620 | succeeds exactly when the records are valid and their argument slices concatenate to the argument table |
| `TlacDecoder.ReadWord` | src/catalog/rust_app_catalog_parser.cpp:100-135 | a word inside the buffer, or nothing |
| `TlacEncoder.SerializedRepresents` | src/rust/catalog_parser.rs:617-921 | the serializer's layout of any catalog within the limits represents that catalog |
| `TlacEncoder.StringsRead` | src/rust/catalog_parser.rs:676-700 | the interned strings, laid out 8-aligned and padded, read as records with those values |
| `TlacEncoder.PoolFacts` | src/rust/catalog_parser.rs:539-588 | interning keeps each non-empty value once |
| `TlacEncoder.WriteAndDecode` | src/rust/catalog_parser.rs:781-921 | a catalog that is written and decoded comes back |
| `FileExposure.FileExposure.Cleanup` | src/compat/materializer.cpp:507-552 | whatever others did to the tree, only nodes with a recorded identity are removed; a second call does nothing; without interference what was there is kept, and if no call of the cleanup fails nothing created is left but the orphan and the directories it lies in |
| `FileExposure.FileExposure.RemoveFile` | src/compat/materializer.cpp:511-528 | removes the recorded node or keeps what took its place |
| `FileExposure.FileExposure.RemoveDirectory` | src/compat/materializer.cpp:530-549 | the same for a directory, kept when not empty |
| `FileExposure.FileExposure.RemoveSeenFile` | src/compat/materializer.cpp:516-528 | whatever others did between the status query and the removal: only the recorded path can go, and what goes is the recorded node if and only if nobody has replaced it since |
| `FileExposure.FileExposure.RemoveSeenDirectory` | src/compat/materializer.cpp:535-549 | the same for a directory, which goes only when empty |
| `FileExposure.FileExposure.Materialize` | src/compat/materializer.cpp:328-474 | applied: every target holds its source's bytes and nothing else changed; in any case what was there is kept; not applied and no failing call in the cleanup: the tree is as before if and only if no status query of a created directory failed, whatever else did; what is left over is a directory whose status could not be queried and those it lies in, or, after a failing call in the cleanup, recorded; without failing calls it applies exactly to admissible requests |
| `FileExposure.OrphanRemains` | src/compat/materializer.cpp:411-443 | an admissible request on a disk where only status queries of new directories fail is rejected and leaves the tree changed |
| `FileExposure.FileExposure.CopyFileExclusive` | src/compat/materializer.cpp:238-321 | the copy is recorded with its identity, or undone; it is left behind unrecorded exactly when both its status query and its removal failed; only a failing call stops it |
| `FileExposure.FileExposure.CreateDirectories` | src/compat/materializer.cpp:411-443 | all required directories exist and are recorded; one is left unrecorded exactly when its status query failed; cannot fail by itself when parents come first |
| `FileExposure.FileExposure.CollectParents` | src/compat/materializer.cpp:158-197 | the missing directories above a target, each after its parent, or refused exactly when one is no directory |
| `FileExposure.FileExposure.RegularSource` | src/compat/materializer.cpp:199-218 | a regular file reached without links |
| `FileExposure.FileExposure.TargetPath` | src/compat/materializer.cpp:98-156 | a path that does not exist, reached without links |
| `FileCopy.CopyExclusive` | src/compat/materializer.cpp:238-321 | a new file with the source's bytes, read and written in pieces of any size; a failure leaves a recorded part or nothing, or an unrecorded file exactly when its status query and its removal both failed |
| `FileCopy.WriteAll` | src/compat/materializer.cpp:220-234 | all bytes are appended, or a prefix of them |
| `FileCopy.MakeDirectory` | src/compat/materializer.cpp:411-425 | a new directory with its identity, or, exactly when its status query failed, one that is not recorded |
| `FileSystem.HoldsOrphan` | src/compat/materializer.cpp:507-552 | undoing newest first, a created directory is empty when its turn comes unless it holds the node that could not be recorded |
| `FileSystem.NothingElseLeft` | src/compat/materializer.cpp:507-552 | after that only the orphan and the directories it lies in are new, and without an orphan the initial tree is back |
| `PathOrder.SortEntries` | src/backend/proton_runtime.cpp:270-272 | sorted by path text, the same entries |
| `PathOrder.SortedMeansParentsFirst` | src/backend/proton_runtime.cpp:270-272 | that order puts every directory before what it contains |
| `ProtonStaging.ValidatePath` | src/backend/proton_runtime.cpp:125-166 | accepts exactly ways without links and with directories in between |
| `ProtonStaging.EnsureDirectoryPath` | src/backend/proton_runtime.cpp:168-212 | all directories on the way exist, the new ones are recorded, nothing else changes; one is left unrecorded exactly when its status query failed |
| `ProtonStaging.CollectSourceEntries` | src/backend/proton_runtime.cpp:214-274 | everything below the root once, parents first, refused exactly when something is neither directory nor file |
| `ProtonStaging.FilesEqual` | src/backend/proton_runtime.cpp:276-317 | same bytes, compared buffer by buffer |
| `ProtonStaging.Preflight` | src/backend/proton_runtime.cpp:319-365 | nothing is in the way and what is there already is the same |
| `ProtonStaging.CopyEntries` | src/backend/proton_runtime.cpp:441-459 | every entry arrives with its content, existing files stay, and without failing calls it cannot stop half way; a node is left unrecorded exactly when a directory could not be queried, or a file neither queried nor removed |
| `ProtonStaging.RollbackPaths` | src/backend/proton_runtime.cpp:461-479 | only recorded nodes are removed; each is gone unless a call failed or it holds the orphan, also when the list undone is one part of what was created |
| `ProtonStaging.PrepareDirectories` | src/backend/proton_runtime.cpp:560-571 | the Proton directories exist and are recorded; one is left unrecorded exactly when its status query failed |
| `ProtonStaging.Stage` | src/backend/proton_runtime.cpp:646-684 | success: every part of the application is present byte for byte and nothing existing changed; in any case what was there is kept; failure without a failing call while undoing: the tree is as before if and only if no status query of a created directory failed, whatever else did; without failing calls it succeeds exactly for stageable applications |
| `ProtonStaging.StagingLeavesDirectory` | src/backend/proton_runtime.cpp:168-212 | a stageable application on a disk where only status queries of new directories fail is not staged and leaves the tree changed |
| `ProtonStaging.RestagingCreatesNothing` | src/backend/proton_runtime.cpp:441-459 | staging an unchanged application again leaves the tree as it is |
| `ProtonStaging.StageableAgain` | src/backend/proton_runtime.cpp:319-459 | and it can be staged again: what was stageable still is |
| `FunctionTrace.EveryRunIsRight` | src/diagnostics/trace.cpp:179-194 | from a finished reset that no call was under way at, under any interleaving of any number of threads, true is returned at most once per function and every false is justified |
| `FunctionTrace.StepKeepsInv` | src/diagnostics/trace.cpp:179-194 | one compare-exchange of one thread keeps that |
| `FunctionTrace.ResetIsSafeExactlyWhen` | src/diagnostics/trace.cpp:322-324 | no run after a finished reset repeats a true if and only if no call had begun probing before it |
| `FunctionTrace.QuietResetIsSafe` | src/diagnostics/trace.cpp:322-324 | clearing the slots one by one while no call is under way leads to a state from which every run is right |
| `FunctionTrace.UnsafeResetIsReached` | src/diagnostics/trace.cpp:322-324 | two calls lead to a state in which the same loop does not: some run then returns true twice |
| `FunctionTrace.RunConserves` | src/diagnostics/trace.cpp:179-194 | in every run, with clearing going on at any time: true is returned for a function once for each slot it is in more than at first and once for each time it was cleared away |
| `FunctionTrace.OverlapReturnsTwice` | src/diagnostics/trace.cpp:322-324 | a run in which a call comes in before the clearing loop reaches its slot and another after, and true is returned twice |
| `FunctionTrace.CallsEnd` | src/diagnostics/trace.cpp:183-193 | every call ends after at most 32 steps of its own |
| `FunctionTrace.RememberFunction` | src/diagnostics/trace.cpp:179-194 | the probe loop without interference |
| `ManifestParser.AppxManifestParser.Parse` | src/package/msix.cpp:352-408 | the parser reads and steps as specified, on every text |
| `ManifestParser.AppxManifestParser.ParseStartElement` | src/package/msix.cpp:473-560 | a start tag is read and makes the machine's step, or is refused exactly when either cannot be |
| `ManifestParser.AppxManifestParser.ParseEndElement` | src/package/msix.cpp:458-471 | the same for an end tag |
| `ManifestParser.AppxManifestParser.ParseAttributes` | src/package/msix.cpp:480-523 | the attributes to the end of the tag, at most 256 and without repeats |
| `ManifestParser.DecodeEntities` | src/package/msix.cpp:263-336 | the decoded text, on the fast path too |
| `ManifestParser.NothingToDecode` | src/package/msix.cpp:265-267 | a text without ampersands stands for itself |
| `ManifestParser.ManifestIsTree` | src/package/msix.cpp:352-560 | accepted exactly when the tags spell one tree with root Package and depth at most 128, and what is learned is the recursive reading of that tree |
| `ManifestParser.AcceptedManifest` | src/package/msix.cpp:526-555 | applications in document order, the first executable, each display name with the nearest enclosing recorded application, the last identity |
| `ManifestTree.MachineReadsTree` | src/package/msix.cpp:458-560 | the stack machine and the recursive reading agree, in both directions |
| `ManifestTree.RunRoot` | src/package/msix.cpp:473-560 | running over the tags of a tree succeeds exactly up to depth 128 |
| `ManifestTree.ReadingExtends` | src/package/msix.cpp:526-555 | the recursive reading collects applications, first executable and display names as described |
| `ManifestTree.ReadingIdentity` | src/package/msix.cpp:527-531 | the identity values are the last ones given |

## Left out

- Command line, GUI, Qt, X11 and Wayland code, the runtime stubs, crash reports and the trace writer: plumbing without laws of its own.
- ModuleGraph.GuestModuleGraph.AttachModule: the entry point and TLS callbacks are one free verdict; a guest that calls back into the graph from them is not modelled, and neither are thread notifications and the unwind registry.
- ModuleGraph.GuestModuleGraph.ResolveImportsForModule: writing the import table of a guest is a free success or failure here; `ImportResolver` and `ImageMapper` model the write itself.
- ModuleGraph.GuestModuleGraph.GetModuleHandle: handles of built-in modules are numbers; that no guest is mapped at one is not claimed.
- Reference counts are unbounded; the source's counters would wrap after 2^32 references.
- Reading and parsing PE files: a file is unusable or a parsed DLL; the disk does not change while a graph lives. The bound main image without resolving (`bind_main_image`) is not modelled.
- ImageMapper.MapImage: the reservation of memory is given; when protecting fails half way only the failure is modelled.
- ImportResolver.InspectImports: finding, reading and parsing the DLL beside the program is given, as the exports of the usable ones by name.
- CatalogJson.AppCatalog.LoadFromFile: says nothing when a key is left open at the end of the text, where the source removes a character from an empty view; creating parent directories, the temporary file and renaming it are not modelled.
- Catalog loading through the Rust parser's own JSON reader: only its serializer's layout is modelled.
- TlacEncoder.SerializedRepresents: the buffer is the concatenation of its parts; the serializer writes the same parts into a zeroed buffer.
- TlacDecoder.Decode: error codes and offsets are one failure.
- FileExposure.FileExposure.Materialize: paths are canonical component lists, so links are seen but not followed, and the textual rules for Windows paths are not modelled; other programs change the tree before `Cleanup` and, one removal at a time, between its query and the removal (`RemoveSeenFile`, `RemoveSeenDirectory`), not elsewhere.
- ProtonStaging.Stage: file modes (setting the mode of a new file fails like querying its status), the application manifest and starting Proton are not modelled; exposing files afterwards is `FileExposure`.
- Interrupted system calls are repeated inside one call of the model.
- FunctionTrace.EveryRunIsRight: steps are interleaved one at a time; relaxed ordering adds nothing here because between resets each slot changes once and is only changed by compare-exchange. When calls overlap with the clearing loop of a reset, what holds is `RunConserves`, and this row again from the state in which the loop ends.
- ManifestParser.AppxManifestParser.Parse: reading the manifest out of the ZIP archive is not modelled.
- MSIX extraction, desktop entries, prefix canonicalisation, DLL overrides and Proton version parsing: only easy members.
