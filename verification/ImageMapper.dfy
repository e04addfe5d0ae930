// Mapping a PE image and patching it (src/loader/image_mapper.cpp).
//
// Memory protection is modelled byte by byte: mprotect changes a page-aligned range, so
// all bytes of a host page always carry the same protection.
module ImageMapper {
  import opened LittleEndian
  import opened Relocations

  const MAX_SIZE_OF_IMAGE: nat := 0x8000_0000

  datatype Permissions = NoAccess | ReadOnly | ReadWrite | ReadExecute | ReadWriteExecute

  datatype Section = Section(rva: nat, virtualSize: nat, rawPointer: nat, rawSize: nat,
                             read: bool, write: bool, execute: bool)

  datatype MapRegion = MapRegion(rva: nat, size: nat, rawPointer: nat, rawSize: nat, permissions: Permissions) {
    function End(): nat { rva + size }
  }

  datatype PeInfo = PeInfo(imageBase: nat, sizeOfImage: nat, sizeOfHeaders: nat, sections: seq<Section>,
                           relocations: Range)

  datatype MapStatus = Mapped | Malformed | OutOfMemory

  datatype PatchStatus = Patched | InvalidAddress | MprotectFailed

  // ---------------------------------------------------------------- page arithmetic

  function AlignDown(value: nat, alignment: nat): (r: nat)
    requires alignment > 0
    ensures r <= value
  {
    value - value % alignment
  }

  function AlignUp(value: nat, alignment: nat): (r: nat)
    requires alignment > 0
    ensures value <= r < value + alignment
  {
    if value % alignment == 0 then value else value + (alignment - value % alignment)
  }

  lemma MulMonotone(x: int, y: int, n: nat)
    ensures x <= y ==> x * n <= y * n
  {
    if x <= y { assert y * n - x * n == (y - x) * n; }
  }

  lemma DivMonotone(a: nat, b: nat, n: nat)
    requires n > 0 && a <= b
    ensures a / n <= b / n && (a / n) * n <= (b / n) * n
  {
    var p, q := a / n, b / n;
    assert a == p * n + a % n && b == q * n + b % n;
    assert (q + 1) * n == q * n + n;
    MulMonotone(q + 1, p, n);
    MulMonotone(p, q, n);
  }

  lemma AlignDownMonotone(a: nat, b: nat, n: nat)
    requires n > 0 && a <= b
    ensures AlignDown(a, n) <= AlignDown(b, n)
  {
    DivMonotone(a, b, n);
    assert AlignDown(a, n) == (a / n) * n && AlignDown(b, n) == (b / n) * n;
  }

  lemma AlignUpIsDown(v: nat, n: nat)
    requires n > 0
    ensures AlignUp(v, n) == AlignDown(v + n - 1, n)
  {
    var q, r := v / n, v % n;
    assert v == q * n + r;
    if r == 0 {
      assert v + n - 1 == q * n + (n - 1);
      DivModUnique(v + n - 1, n, q, n - 1);
    } else {
      assert v + n - 1 == (q + 1) * n + (r - 1);
      DivModUnique(v + n - 1, n, q + 1, r - 1);
    }
  }

  lemma DivModUnique(x: nat, n: nat, q: nat, r: nat)
    requires n > 0 && r < n && x == q * n + r
    ensures x / n == q && x % n == r
  {
    var p := x / n;
    assert x == p * n + x % n;
    assert (q + 1) * n == q * n + n && (p + 1) * n == p * n + n;
    MulMonotone(q + 1, p, n);
    MulMonotone(p + 1, q, n);
  }

  lemma AlignUpMonotone(a: nat, b: nat, n: nat)
    requires n > 0 && a <= b
    ensures AlignUp(a, n) <= AlignUp(b, n)
  {
    AlignUpIsDown(a, n);
    AlignUpIsDown(b, n);
    AlignDownMonotone(a + n - 1, b + n - 1, n);
  }

  lemma AlignedUpIsAligned(v: nat, n: nat)
    requires n > 0
    ensures AlignUp(v, n) % n == 0 && AlignDown(v, n) % n == 0
  {
    AlignUpIsDown(v, n);
    AlignedDownIsAligned(v, n);
    AlignedDownIsAligned(v + n - 1, n);
  }

  lemma AlignedDownIsAligned(v: nat, n: nat)
    requires n > 0
    ensures AlignDown(v, n) % n == 0
  {
    DivModUnique(AlignDown(v, n), n, v / n, 0);
  }

  // Rounding up never passes an aligned bound.
  lemma AlignUpStaysBelow(v: nat, bound: nat, n: nat)
    requires n > 0 && v <= bound && bound % n == 0
    ensures AlignUp(v, n) <= bound
  {
    AlignUpMonotone(v, bound, n);
  }

  // A byte below an aligned bound lies in a page below it, and likewise above.
  lemma PageWithin(i: nat, start: nat, end: nat, n: nat)
    requires n > 0 && start <= i < end && start % n == 0 && end % n == 0
    ensures start <= AlignDown(i, n) && AlignUp(i + 1, n) <= end
  {
    AlignDownMonotone(start, i, n);
    AlignUpStaysBelow(i + 1, end, n);
  }

  // ---------------------------------------------------------------- permissions

  function SectionPermissions(s: Section): Permissions {
    if s.execute && s.write then ReadWrite
    else if s.execute then ReadExecute
    else if s.write then ReadWrite
    else if s.read then ReadOnly
    else NoAccess
  }

  predicate Meets(r: MapRegion, start: nat, end: nat) { r.rva < end && start < r.End() }

  predicate Readable(p: Permissions) { p != NoAccess }

  predicate Writable(p: Permissions) { p == ReadWrite || p == ReadWriteExecute }

  predicate Executable(p: Permissions) { p == ReadExecute || p == ReadWriteExecute }

  // The union of what the sections (and the headers) meeting a byte range ask for, where
  // write wins over execute.
  function PermissionsFor(regions: seq<MapRegion>, start: nat, end: nat, headersSize: nat): Permissions {
    if exists r :: r in regions && Meets(r, start, end) && Writable(r.permissions) then ReadWrite
    else if exists r :: r in regions && Meets(r, start, end) && Executable(r.permissions) then ReadExecute
    else if start < headersSize || exists r :: r in regions && Meets(r, start, end) && Readable(r.permissions)
    then ReadOnly
    else NoAccess
  }

  method PermissionsForPage(regions: seq<MapRegion>, start: nat, end: nat, headersSize: nat) returns (p: Permissions)
    ensures p == PermissionsFor(regions, start, end, headersSize)
  {
    var read, write, execute := start < headersSize, false, false;
    for k := 0 to |regions|
      invariant read <==> (start < headersSize ||
        exists j :: 0 <= j < k && Meets(regions[j], start, end) && Readable(regions[j].permissions))
      invariant write <==> exists j :: 0 <= j < k && Meets(regions[j], start, end) && Writable(regions[j].permissions)
      invariant execute <==>
        exists j :: 0 <= j < k && Meets(regions[j], start, end) && Executable(regions[j].permissions)
    {
      if regions[k].rva >= end || regions[k].End() <= start { continue; }
      match regions[k].permissions {
        case ReadOnly => read := true;
        case ReadWrite => read, write := true, true;
        case ReadExecute => read, execute := true, true;
        case ReadWriteExecute => read, write, execute := true, true, true;
        case NoAccess =>
      }
    }
    if execute && write { return ReadWrite; }
    if write { return ReadWrite; }
    if execute { return ReadExecute; }
    return if read then ReadOnly else NoAccess;
  }

  // What the loader reports for the page holding a byte.
  function EffectivePermissions(regions: seq<MapRegion>, headersSize: nat, page: nat, i: nat): Permissions
    requires page > 0
  {
    PermissionsFor(regions, AlignDown(i, page), AlignUp(i + 1, page), headersSize)
  }

  // ---------------------------------------------------------------- layout

  predicate InPages(r: MapRegion, page: nat, i: nat)
    requires page > 0
  {
    AlignDown(r.rva, page) <= i < AlignUp(r.End(), page)
  }

  // No host page is shared by two sections, or by a section and the headers.
  ghost predicate NoSharedPages(regions: seq<MapRegion>, headersSize: nat, page: nat)
    requires page > 0
  {
    && (forall j, k, i: nat :: 0 <= j < k < |regions| && InPages(regions[j], page, i) ==> !InPages(regions[k], page, i))
    && (forall k :: 0 <= k < |regions| ==> AlignUp(headersSize, page) <= AlignDown(regions[k].rva, page))
  }

  // The protection left by the section loop: the last section whose pages hold the byte
  // decides, with the union taken over all pages of that section.
  function SectionLayout(regions: seq<MapRegion>, headersSize: nat, page: nat, n: nat, i: nat): Permissions
    requires page > 0 && n <= |regions|
  {
    if n == 0 then NoAccess
    else if InPages(regions[n - 1], page, i) then
      PermissionsFor(regions, AlignDown(regions[n - 1].rva, page), AlignUp(regions[n - 1].End(), page), headersSize)
    else SectionLayout(regions, headersSize, page, n - 1, i)
  }

  // The protection of a freshly mapped image; the headers are protected last.
  function Layout(regions: seq<MapRegion>, headersSize: nat, page: nat, i: nat): Permissions
    requires page > 0
  {
    if i < AlignUp(headersSize, page) then PermissionsFor(regions, 0, AlignUp(headersSize, page), headersSize)
    else SectionLayout(regions, headersSize, page, |regions|, i)
  }

  lemma NeverWritableAndExecutable(regions: seq<MapRegion>, start: nat, end: nat, headersSize: nat)
    ensures var p := PermissionsFor(regions, start, end, headersSize); !(Writable(p) && Executable(p))
  {
  }

  // Inside the pages of one section every range has that section's own permissions.
  lemma UnsharedRange(regions: seq<MapRegion>, headersSize: nat, page: nat, k: nat, start: nat, end: nat)
    requires page > 0 && k < |regions| && NoSharedPages(regions, headersSize, page)
    requires AlignDown(regions[k].rva, page) <= start && end <= AlignUp(regions[k].End(), page)
    requires start < end && Meets(regions[k], start, end) && forall r :: r in regions ==> r.size > 0
    ensures PermissionsFor(regions, start, end, headersSize) == PermissionsFor([regions[k]], start, end, 0)
  {
    assert regions[k] in regions && [regions[k]][0] == regions[k];
    assert headersSize <= start;
    forall r | r in regions && Meets(r, start, end) ensures r == regions[k] {
      var j :| 0 <= j < |regions| && regions[j] == r;
      var i := if r.rva < start then start else r.rva;
      assert InPages(regions[j], page, i) && InPages(regions[k], page, i);
    }
  }

  lemma UnsharedHeaders(regions: seq<MapRegion>, headersSize: nat, page: nat, start: nat, end: nat)
    requires page > 0 && NoSharedPages(regions, headersSize, page)
    requires start < headersSize && end <= AlignUp(headersSize, page)
    ensures PermissionsFor(regions, start, end, headersSize) == ReadOnly
  {
  }

  // A page of a section meets the section's bytes when pages are laid out from its start.
  lemma PageMeetsRegion(r: MapRegion, page: nat, i: nat)
    requires page > 0 && r.size > 0 && InPages(r, page, i)
    ensures Meets(r, AlignDown(i, page), AlignUp(i + 1, page))
    ensures AlignDown(r.rva, page) <= AlignDown(i, page) && AlignUp(i + 1, page) <= AlignUp(r.End(), page)
  {
    AlignedUpIsAligned(r.rva, page);
    AlignedUpIsAligned(r.End(), page);
    PageWithin(i, AlignDown(r.rva, page), AlignUp(r.End(), page), page);
    AlignedUpIsAligned(i, page);
    AlignedUpIsAligned(i + 1, page);
    if r.rva >= AlignUp(i + 1, page) {
      AlignDownMonotone(AlignUp(i + 1, page), r.rva, page);
    }
    if r.End() <= AlignDown(i, page) {
      AlignUpStaysBelow(r.End(), AlignDown(i, page), page);
    }
  }

  lemma UnsharedPage(regions: seq<MapRegion>, headersSize: nat, page: nat, k: nat, i: nat)
    requires page > 0 && k < |regions| && (forall r :: r in regions ==> r.size > 0)
    requires NoSharedPages(regions, headersSize, page)
    requires InPages(regions[k], page, i)
    ensures EffectivePermissions(regions, headersSize, page, i)
            == PermissionsFor(regions, AlignDown(regions[k].rva, page), AlignUp(regions[k].End(), page), headersSize)
  {
    PageMeetsRegion(regions[k], page, i);
    UnsharedRange(regions, headersSize, page, k, AlignDown(i, page), AlignUp(i + 1, page));
    UnsharedRange(regions, headersSize, page, k, AlignDown(regions[k].rva, page), AlignUp(regions[k].End(), page));
  }

  lemma {:induction false} SectionLayoutIsEffective(regions: seq<MapRegion>, headersSize: nat, page: nat, n: nat,
                                                    i: nat)
    requires page > 0 && n <= |regions| && NoSharedPages(regions, headersSize, page)
    requires forall r :: r in regions ==> r.size > 0
    requires forall k :: n <= k < |regions| ==> !InPages(regions[k], page, i)
    requires AlignUp(headersSize, page) <= i
    ensures SectionLayout(regions, headersSize, page, n, i) == EffectivePermissions(regions, headersSize, page, i)
  {
    if n == 0 {
      AlignedUpIsAligned(headersSize, page);
      PageWithin(i, AlignUp(headersSize, page), AlignUp(i + 1, page), page) by { AlignedUpIsAligned(i + 1, page); }
      forall r | r in regions ensures !Meets(r, AlignDown(i, page), AlignUp(i + 1, page)) {
        var k :| 0 <= k < |regions| && regions[k] == r;
        OrphanPage(r, page, i);
      }
    } else if InPages(regions[n - 1], page, i) {
      UnsharedPage(regions, headersSize, page, n - 1, i);
    } else {
      SectionLayoutIsEffective(regions, headersSize, page, n - 1, i);
    }
  }

  lemma OrphanPage(r: MapRegion, page: nat, i: nat)
    requires page > 0 && !InPages(r, page, i)
    ensures !Meets(r, AlignDown(i, page), AlignUp(i + 1, page))
  {
    AlignedUpIsAligned(r.rva, page);
    AlignedUpIsAligned(r.End(), page);
    if i < AlignDown(r.rva, page) {
      AlignUpStaysBelow(i + 1, AlignDown(r.rva, page), page);
    } else {
      AlignDownMonotone(AlignUp(r.End(), page), i, page);
    }
  }

  // Main result on protections: with no shared pages, the protection of every page of a
  // freshly mapped image is the one the loader reports for it.
  lemma LayoutIsEffective(regions: seq<MapRegion>, headersSize: nat, page: nat, i: nat)
    requires page > 0 && NoSharedPages(regions, headersSize, page)
    requires forall r :: r in regions ==> r.size > 0
    ensures Layout(regions, headersSize, page, i) == EffectivePermissions(regions, headersSize, page, i)
  {
    if i < AlignUp(headersSize, page) {
      AlignedUpIsAligned(headersSize, page);
      assert 0 % page == 0 by { DivModUnique(0, page, 0, 0); }
      PageWithin(i, 0, AlignUp(headersSize, page), page);
      AlignedUpIsAligned(i, page);
      if AlignDown(i, page) >= headersSize { AlignUpStaysBelow(headersSize, AlignDown(i, page), page); }
      UnsharedHeaders(regions, headersSize, page, AlignDown(i, page), AlignUp(i + 1, page));
      if headersSize > 0 { UnsharedHeaders(regions, headersSize, page, 0, AlignUp(headersSize, page)); }
    } else {
      SectionLayoutIsEffective(regions, headersSize, page, |regions|, i);
    }
  }

  // How much a protection gives; write wins over execute.
  function Grade(p: Permissions): nat {
    match p
    case NoAccess => 0
    case ReadOnly => 1
    case ReadExecute => 2
    case ReadWrite => 3
    case ReadWriteExecute => 3
  }

  // A range is given the most that anything in it asks for.
  lemma RangeGivesMost(regions: seq<MapRegion>, start: nat, end: nat, headersSize: nat)
    ensures var p := PermissionsFor(regions, start, end, headersSize);
      && p != ReadWriteExecute && (start < headersSize ==> 1 <= Grade(p))
      && (forall r :: r in regions && Meets(r, start, end) ==> Grade(r.permissions) <= Grade(p))
      && (Grade(p) == 0 || (Grade(p) == 1 && start < headersSize)
          || exists r :: r in regions && Meets(r, start, end) && Grade(r.permissions) == Grade(p))
  {
  }

  // The range whose protection the pages of a byte are left with: the headers' pages, or all
  // pages of the last section whose pages hold the byte.
  function DecidingRange(regions: seq<MapRegion>, headersSize: nat, page: nat, i: nat): (nat, nat)
    requires page > 0
  {
    if i < AlignUp(headersSize, page) then (0, AlignUp(headersSize, page))
    else LastRange(regions, page, |regions|, i)
  }

  function LastRange(regions: seq<MapRegion>, page: nat, n: nat, i: nat): (nat, nat)
    requires page > 0 && n <= |regions|
  {
    if n == 0 then (AlignDown(i, page), AlignUp(i + 1, page))
    else if InPages(regions[n - 1], page, i)
    then (AlignDown(regions[n - 1].rva, page), AlignUp(regions[n - 1].End(), page))
    else LastRange(regions, page, n - 1, i)
  }

  // Nothing in the range asks for more than the byte's own page is to be given.
  ghost predicate NoneAsksIn(regions: seq<MapRegion>, headersSize: nat, page: nat, span: (nat, nat), i: nat)
    requires page > 0
  {
    var given := Grade(EffectivePermissions(regions, headersSize, page, i));
    && (span.0 < headersSize ==> 1 <= given)
    && forall r :: r in regions && Meets(r, span.0, span.1) ==> Grade(r.permissions) <= given
  }

  ghost predicate NoneAsksForMore(regions: seq<MapRegion>, headersSize: nat, page: nat, i: nat)
    requires page > 0
  {
    NoneAsksIn(regions, headersSize, page, DecidingRange(regions, headersSize, page, i), i)
  }

  // A range of whole pages given its combined protection: what a page gets is what the loader
  // reports for it exactly when nothing in the range asks for more.
  lemma RangeIsEffectiveExactlyWhen(regions: seq<MapRegion>, headersSize: nat, page: nat, span: (nat, nat), i: nat)
    requires page > 0 && span.0 <= AlignDown(i, page) && AlignUp(i + 1, page) <= span.1
    ensures PermissionsFor(regions, span.0, span.1, headersSize) == EffectivePermissions(regions, headersSize, page, i)
            <==> NoneAsksIn(regions, headersSize, page, span, i)
  {
    hide PermissionsFor, AlignUp, AlignDown;
    RangeGivesMost(regions, span.0, span.1, headersSize);
    RangeGivesMost(regions, AlignDown(i, page), AlignUp(i + 1, page), headersSize);
  }

  lemma {:induction false} LastDecides(regions: seq<MapRegion>, headersSize: nat, page: nat, n: nat, i: nat)
    requires page > 0 && n <= |regions| && AlignUp(headersSize, page) <= i
    requires forall k :: n <= k < |regions| ==> !InPages(regions[k], page, i)
    ensures var span := LastRange(regions, page, n, i);
      && SectionLayout(regions, headersSize, page, n, i) == PermissionsFor(regions, span.0, span.1, headersSize)
      && span.0 <= AlignDown(i, page) && AlignUp(i + 1, page) <= span.1
  {
    hide PermissionsFor, AlignUp, AlignDown;
    if n == 0 {
      NobodysPage(regions, headersSize, page, i);
    } else if InPages(regions[n - 1], page, i) {
      AlignedUpIsAligned(regions[n - 1].rva, page);
      AlignedUpIsAligned(regions[n - 1].End(), page);
      PageWithin(i, AlignDown(regions[n - 1].rva, page), AlignUp(regions[n - 1].End(), page), page);
    } else {
      LastDecides(regions, headersSize, page, n - 1, i);
    }
  }

  lemma NobodysPage(regions: seq<MapRegion>, headersSize: nat, page: nat, i: nat)
    requires page > 0 && AlignUp(headersSize, page) <= i
    requires forall k :: 0 <= k < |regions| ==> !InPages(regions[k], page, i)
    ensures PermissionsFor(regions, AlignDown(i, page), AlignUp(i + 1, page), headersSize) == NoAccess
  {
    AlignedUpIsAligned(headersSize, page);
    AlignDownMonotone(AlignUp(headersSize, page), i, page);
    forall r | r in regions ensures !Meets(r, AlignDown(i, page), AlignUp(i + 1, page)) {
      var k :| 0 <= k < |regions| && regions[k] == r;
      OrphanPage(r, page, i);
    }
  }

  lemma DeciderHoldsPage(regions: seq<MapRegion>, headersSize: nat, page: nat, i: nat)
    requires page > 0
    ensures var span := DecidingRange(regions, headersSize, page, i);
      && Layout(regions, headersSize, page, i) == PermissionsFor(regions, span.0, span.1, headersSize)
      && span.0 <= AlignDown(i, page) && AlignUp(i + 1, page) <= span.1
  {
    hide PermissionsFor, AlignUp, AlignDown;
    if i < AlignUp(headersSize, page) {
      AlignedUpIsAligned(headersSize, page);
      assert 0 % page == 0 by { DivModUnique(0, page, 0, 0); }
      PageWithin(i, 0, AlignUp(headersSize, page), page);
    } else {
      LastDecides(regions, headersSize, page, |regions|, i);
    }
  }

  // In general: a page is left with what the loader reports exactly when nothing in the range
  // that decides asks for more.
  lemma LayoutIsEffectiveExactlyWhen(regions: seq<MapRegion>, headersSize: nat, page: nat, i: nat)
    requires page > 0
    ensures Layout(regions, headersSize, page, i) == EffectivePermissions(regions, headersSize, page, i)
            <==> NoneAsksForMore(regions, headersSize, page, i)
  {
    hide Layout, DecidingRange, PermissionsFor, AlignUp, AlignDown, NoneAsksIn;
    DeciderHoldsPage(regions, headersSize, page, i);
    RangeIsEffectiveExactlyWhen(regions, headersSize, page, DecidingRange(regions, headersSize, page, i), i);
  }

  lemma PageOf(v: nat, n: nat, q: nat)
    requires n > 0 && q * n <= v < q * n + n
    ensures AlignDown(v, n) == q * n
    ensures AlignUp(v, n) == if v == q * n then v else q * n + n
  {
    DivModUnique(v, n, q, v - q * n);
  }

  // The hypothesis is needed: for a code section of two pages whose second page also holds
  // writable data, the first page loses execution, while the loader reports it executable.
  lemma SharedPageLosesExecution(page: nat)
    requires page > 2
    ensures var regions := [MapRegion(page, page + 1, 0, 0, ReadExecute),
                            MapRegion(2 * page + 1, 1, 0, 0, ReadWrite)];
      && Layout(regions, 1, page, page) == ReadWrite
      && EffectivePermissions(regions, 1, page, page) == ReadExecute
      && !NoSharedPages(regions, 1, page)
  {
    hide AlignUp, AlignDown, PermissionsFor;
    var regions := [MapRegion(page, page + 1, 0, 0, ReadExecute), MapRegion(2 * page + 1, 1, 0, 0, ReadWrite)];
    var code, data := regions[0], regions[1];
    PageOf(1, page, 0);
    PageOf(page, page, 1);
    PageOf(page + 1, page, 1);
    PageOf(2 * page + 1, page, 2);
    PageOf(2 * page + 2, page, 2);
    assert InPages(code, page, 2 * page) && InPages(data, page, 2 * page);
    WriterDecides(regions, 1, page, 3 * page, 1);
    ExecutableWithoutWriter(regions, 0, page, 2 * page, 1);
    assert SectionLayout(regions, 1, page, 1, page) == ReadWrite;
  }

  // An image with these sections, which map_image accepts.
  function SharedPageImage(page: nat): PeInfo {
    PeInfo(0x1_0000, 4 * page, 1,
           [Section(page, page + 1, 0, 0, true, false, true), Section(2 * page + 1, 1, 0, 0, true, true, false)],
           Range(0, 0))
  }

  lemma SharedPageIsAccepted(page: nat)
    requires 2 < page && 4 * page <= MAX_SIZE_OF_IMAGE
    ensures var info := SharedPageImage(page);
      && AcceptableImage(info, page) && page < AlignUp(info.sizeOfImage, page)
      && !NoneAsksForMore(RegionsOf(info.sections), info.sizeOfHeaders, page, page)
  {
    hide AlignUp, NoneAsksForMore;
    var info := SharedPageImage(page);
    var regions := [MapRegion(page, page + 1, 0, 0, ReadExecute), MapRegion(2 * page + 1, 1, 0, 0, ReadWrite)];
    TwoRegions(info.sections[0], info.sections[1]);
    assert RegionsOf(info.sections) == regions;
    SharedPageLosesExecution(page);
    LayoutIsEffectiveExactlyWhen(regions, 1, page, page);
    PageOf(4 * page, page, 4);
  }

  lemma TwoRegions(a: Section, b: Section)
    requires SectionRegion(a).size > 0 && SectionRegion(b).size > 0
    ensures RegionsOf([a, b]) == [SectionRegion(a), SectionRegion(b)]
  {
    assert [a, b][..1] == [a] && [a][..0] == [];
    assert RegionsOf([]) == [] && RegionsOf([a]) == [SectionRegion(a)];
  }

  lemma WriterDecides(regions: seq<MapRegion>, k: nat, start: nat, end: nat, headersSize: nat)
    requires k < |regions| && Meets(regions[k], start, end) && Writable(regions[k].permissions)
    ensures PermissionsFor(regions, start, end, headersSize) == ReadWrite
  {
    assert regions[k] in regions;
  }

  lemma ExecutableWithoutWriter(regions: seq<MapRegion>, k: nat, start: nat, end: nat, headersSize: nat)
    requires k < |regions| && Meets(regions[k], start, end) && Executable(regions[k].permissions)
    requires forall j :: 0 <= j < |regions| && Meets(regions[j], start, end) ==> !Writable(regions[j].permissions)
    ensures PermissionsFor(regions, start, end, headersSize) == ReadExecute
  {
    assert regions[k] in regions;
  }

  // ---------------------------------------------------------------- contents

  function SectionRegion(s: Section): MapRegion {
    MapRegion(s.rva, if s.virtualSize > s.rawSize then s.virtualSize else s.rawSize, s.rawPointer, s.rawSize,
              SectionPermissions(s))
  }

  predicate AcceptableRegion(info: PeInfo, r: MapRegion) {
    r.size == 0 || (r.End() <= info.sizeOfImage && info.sizeOfHeaders <= r.rva)
  }

  // The regions of the sections that occupy memory, in order.
  function RegionsOf(sections: seq<Section>): seq<MapRegion> {
    if sections == [] then []
    else
      var r := SectionRegion(sections[|sections| - 1]);
      RegionsOf(sections[..|sections| - 1]) + if r.size == 0 then [] else [r]
  }

  predicate Overlap(a: MapRegion, b: MapRegion) { a.rva < b.End() && b.rva < a.End() }

  ghost predicate Disjoint(regions: seq<MapRegion>) {
    forall j, k :: 0 <= j < k < |regions| ==> !Overlap(regions[j], regions[k])
  }

  // The checks made before any memory is reserved.
  ghost predicate AcceptableImage(info: PeInfo, page: nat)
    requires page > 0
  {
    && 0 < AlignUp(info.sizeOfImage, page) <= MAX_SIZE_OF_IMAGE
    && 0 < info.sizeOfHeaders <= info.sizeOfImage
    && (forall s :: s in info.sections ==> AcceptableRegion(info, SectionRegion(s)))
    && Disjoint(RegionsOf(info.sections))
  }

  function CopySize(r: MapRegion, file: seq<byte>): nat {
    if r.rawPointer >= |file| then 0
    else if r.rawSize <= |file| - r.rawPointer then r.rawSize
    else |file| - r.rawPointer
  }

  predicate Inside(r: MapRegion, i: nat) { r.rva <= i < r.End() }

  ghost predicate Outside(regions: seq<MapRegion>, i: nat) {
    forall k :: 0 <= k < |regions| ==> !Inside(regions[k], i)
  }

  // Memory that holds the headers and sections of a file, and zero everywhere else.
  ghost predicate Loaded(memory: seq<byte>, regions: seq<MapRegion>, headersSize: nat, file: seq<byte>) {
    && (forall k, i :: 0 <= k < |regions| && 0 <= i < |memory| && Inside(regions[k], i) ==>
          memory[i] == FileByte(regions[k], file, i))
    && (forall i :: 0 <= i < |memory| && Outside(regions, i) ==>
          memory[i] == if i < headersSize && i < |file| then file[i] else 0)
  }

  function FileByte(r: MapRegion, file: seq<byte>, i: nat): byte
    requires Inside(r, i)
  {
    if i - r.rva < CopySize(r, file) then file[r.rawPointer + (i - r.rva)] else 0
  }

  function Ranges(regions: seq<MapRegion>): seq<Range> {
    seq(|regions|, k requires 0 <= k < |regions| => Range(regions[k].rva, regions[k].size))
  }

  // ---------------------------------------------------------------- a mapped image

  class MappedImage {
    const page: nat
    const base: nat
    const headersSize: nat
    const regions: seq<MapRegion>
    const memory: array<byte>
    const protection: array<Permissions>

    constructor (page: nat, base: nat, headersSize: nat, regions: seq<MapRegion>, size: nat)
      ensures this.page == page && this.base == base && this.headersSize == headersSize && this.regions == regions
      ensures fresh(memory) && fresh(protection) && memory.Length == protection.Length == size
      ensures forall i :: 0 <= i < size ==> memory[i] == 0 && protection[i] == ReadWrite
    {
      this.page, this.base, this.headersSize, this.regions := page, base, headersSize, regions;
      memory := new byte[size](_ => 0);
      protection := new Permissions[size](_ => ReadWrite);
    }

    ghost predicate WellFormed()
    {
      && page > 0 && memory.Length == protection.Length && memory.Length % page == 0
      && headersSize <= memory.Length
      && forall r :: r in regions ==> r.size > 0 && r.End() <= memory.Length
    }

    // No byte is ever both writable and executable.
    ghost predicate WriteXorExecute()
      reads protection
    {
      forall i :: 0 <= i < protection.Length ==> !(Writable(protection[i]) && Executable(protection[i]))
    }

    // Every byte carries the protection the loader reports for its page.
    ghost predicate Faithful()
      requires page > 0
      reads protection
    {
      forall i :: 0 <= i < protection.Length ==>
        protection[i] == EffectivePermissions(regions, headersSize, page, i)
    }

    // mprotect: all of the range or, when the system refuses, none of it.
    method Mprotect(start: nat, end: nat, p: Permissions) returns (ok: bool)
      requires start <= end <= protection.Length
      modifies protection
      ensures forall i :: 0 <= i < protection.Length ==>
        protection[i] == if ok && start <= i < end then p else old(protection[i])
    {
      ok := *;
      if ok {
        forall i | start <= i < end { protection[i] := p; }
      }
    }

    ghost predicate InRegion(rva: nat, size: nat) {
      exists k :: 0 <= k < |regions| && Holds(regions[k], rva, size)
    }

    predicate InHeaders(rva: nat, size: nat) { rva < headersSize && rva + size <= headersSize }

    method WriteImageBytes(rva: nat, data: seq<byte>) returns (status: PatchStatus)
      requires WellFormed()
      modifies memory, protection
      ensures status == InvalidAddress <==>
              data == [] || rva + |data| > memory.Length || !(InRegion(rva, |data|) || InHeaders(rva, |data|))
      ensures status == InvalidAddress ==> unchanged(memory) && unchanged(protection)
      ensures status == Patched ==> rva + |data| <= memory.Length && memory[..] == Put(old(memory[..]), rva, data)
      ensures status == MprotectFailed ==>
                unchanged(memory)
                || (rva + |data| <= memory.Length && memory[..] == Put(old(memory[..]), rva, data))
      ensures status != InvalidAddress ==>
                forall i :: 0 <= i < protection.Length && !(AlignDown(rva, page) <= i < AlignUp(rva + |data|, page)) ==>
                  protection[i] == old(protection[i])
      ensures old(WriteXorExecute()) ==> WriteXorExecute()
      ensures status == Patched && NoSharedPages(regions, headersSize, page) && old(Faithful()) ==> Faithful()
      ensures status == Patched && old(Faithful()) ==>
                (Faithful() <==>
                   var span := (AlignDown(rva, page), AlignUp(rva + |data|, page));
                   forall i :: span.0 <= i < span.1 ==> NoneAsksIn(regions, headersSize, page, span, i))
    {
      if |data| == 0 || rva + |data| > memory.Length { return InvalidAddress; }
      var covering := |regions|;
      for k := 0 to |regions|
        invariant covering == |regions|
        invariant forall j :: 0 <= j < k ==> !Holds(regions[j], rva, |data|)
      {
        if Holds(regions[k], rva, |data|) {
          covering := k;
          break;
        }
      }
      if covering == |regions| && !InHeaders(rva, |data|) { return InvalidAddress; }
      // The mapping is a whole number of pages, so the pages written to lie inside it.
      var pageStart, pageEnd := AlignDown(rva, page), AlignUp(rva + |data|, page);
      AlignUpStaysBelow(rva + |data|, memory.Length, page);
      var relaxed := Mprotect(pageStart, pageEnd, ReadWrite);
      if !relaxed { return MprotectFailed; }
      forall i | rva <= i < rva + |data| { memory[i] := data[i - rva]; }
      assert memory[..] == Put(old(memory[..]), rva, data);
      var p := PermissionsForPage(regions, pageStart, pageEnd, headersSize);
      NeverWritableAndExecutable(regions, pageStart, pageEnd, headersSize);
      var restored := Mprotect(pageStart, pageEnd, p);
      if !restored {
        var fallback := Mprotect(pageStart, pageEnd, ReadOnly);
        return MprotectFailed;
      }
      forall i | pageStart <= i < pageEnd
        ensures p == EffectivePermissions(regions, headersSize, page, i)
                <==> NoneAsksIn(regions, headersSize, page, (pageStart, pageEnd), i)
      {
        AlignedUpIsAligned(rva, page);
        AlignedUpIsAligned(rva + |data|, page);
        PageWithin(i, pageStart, pageEnd, page);
        RangeIsEffectiveExactlyWhen(regions, headersSize, page, (pageStart, pageEnd), i);
      }
      if NoSharedPages(regions, headersSize, page) {
        forall i | pageStart <= i < pageEnd ensures p == EffectivePermissions(regions, headersSize, page, i) {
          if covering < |regions| { PatchedPage(regions, headersSize, page, covering, rva, |data|, i); }
          else { PatchedHeaderPage(regions, headersSize, page, rva, |data|, i); }
        }
      }
      return Patched;
    }
  }

  // A patch within one page meets the condition, whatever shares the page.
  lemma PatchInOnePage(regions: seq<MapRegion>, headersSize: nat, page: nat, rva: nat, size: nat, i: nat)
    requires page > 0 && size > 0 && AlignUp(rva + size, page) == AlignDown(rva, page) + page
    requires AlignDown(rva, page) <= i < AlignUp(rva + size, page)
    ensures NoneAsksIn(regions, headersSize, page, (AlignDown(rva, page), AlignUp(rva + size, page)), i)
  {
    hide PermissionsFor;
    hide AlignUp, AlignDown;
    var start := AlignDown(rva, page);
    SamePage(start, i, page) by { AlignedUpIsAligned(rva, page); }
    RangeIsEffectiveExactlyWhen(regions, headersSize, page, (start, start + page), i);
  }

  lemma SamePage(start: nat, i: nat, page: nat)
    requires page > 0 && start % page == 0 && start <= i < start + page
    ensures AlignDown(i, page) == start && AlignUp(i + 1, page) == start + page
  {
    hide AlignUp, AlignDown;
    var q := start / page;
    assert start == q * page && (q + 1) * page == q * page + page;
    PageOf(i, page, q);
    if i + 1 < start + page { PageOf(i + 1, page, q); } else { PageOf(i + 1, page, q + 1); }
  }

  predicate Holds(r: MapRegion, rva: nat, size: nat) { r.rva <= rva && rva + size <= r.End() }

  lemma PatchedPage(regions: seq<MapRegion>, headersSize: nat, page: nat, k: nat, rva: nat, size: nat, i: nat)
    requires page > 0 && k < |regions| && size > 0 && NoSharedPages(regions, headersSize, page)
    requires forall r :: r in regions ==> r.size > 0
    requires Holds(regions[k], rva, size) && AlignDown(rva, page) <= i < AlignUp(rva + size, page)
    ensures PermissionsFor(regions, AlignDown(rva, page), AlignUp(rva + size, page), headersSize)
            == EffectivePermissions(regions, headersSize, page, i)
  {
    AlignDownMonotone(regions[k].rva, rva, page);
    AlignUpMonotone(rva + size, regions[k].End(), page);
    UnsharedRange(regions, headersSize, page, k, AlignDown(rva, page), AlignUp(rva + size, page));
    UnsharedPage(regions, headersSize, page, k, i);
    UnsharedRange(regions, headersSize, page, k, AlignDown(regions[k].rva, page), AlignUp(regions[k].End(), page));
  }

  lemma PatchedHeaderPage(regions: seq<MapRegion>, headersSize: nat, page: nat, rva: nat, size: nat, i: nat)
    requires page > 0 && size > 0 && NoSharedPages(regions, headersSize, page)
    requires rva + size <= headersSize && AlignDown(rva, page) <= i < AlignUp(rva + size, page)
    ensures PermissionsFor(regions, AlignDown(rva, page), AlignUp(rva + size, page), headersSize)
            == EffectivePermissions(regions, headersSize, page, i)
  {
    AlignUpMonotone(rva + size, headersSize, page);
    UnsharedHeaders(regions, headersSize, page, AlignDown(rva, page), AlignUp(rva + size, page));
    HeaderPageIsReadOnly(regions, headersSize, page, i);
  }

  lemma HeaderPageIsReadOnly(regions: seq<MapRegion>, headersSize: nat, page: nat, i: nat)
    requires page > 0 && NoSharedPages(regions, headersSize, page) && i < AlignUp(headersSize, page)
    ensures EffectivePermissions(regions, headersSize, page, i) == ReadOnly
  {
    AlignedUpIsAligned(headersSize, page);
    AlignedUpIsAligned(i, page);
    assert 0 % page == 0 by { DivModUnique(0, page, 0, 0); }
    PageWithin(i, 0, AlignUp(headersSize, page), page);
    if AlignDown(i, page) >= headersSize { AlignUpStaysBelow(headersSize, AlignDown(i, page), page); }
    UnsharedHeaders(regions, headersSize, page, AlignDown(i, page), AlignUp(i + 1, page));
  }

  // ---------------------------------------------------------------- mapping

  method BuildRegions(info: PeInfo) returns (ok: bool, regions: seq<MapRegion>)
    ensures ok <==> forall s :: s in info.sections ==> AcceptableRegion(info, SectionRegion(s))
    ensures ok ==> regions == RegionsOf(info.sections)
  {
    regions := [];
    for k := 0 to |info.sections|
      invariant forall j :: 0 <= j < k ==> AcceptableRegion(info, SectionRegion(info.sections[j]))
      invariant regions == RegionsOf(info.sections[..k])
    {
      var region := SectionRegion(info.sections[k]);
      assert info.sections[..k + 1][..k] == info.sections[..k];
      if region.size == 0 { continue; }
      if region.End() > info.sizeOfImage || region.rva < info.sizeOfHeaders {
        assert info.sections[k] in info.sections;
        return false, [];
      }
      regions := regions + [region];
    }
    assert info.sections[..|info.sections|] == info.sections;
    return true, regions;
  }

  method HasOverlap(regions: seq<MapRegion>) returns (found: bool)
    ensures found <==> !Disjoint(regions)
  {
    for first := 0 to |regions|
      invariant forall j, k :: 0 <= j < first && j < k < |regions| ==> !Overlap(regions[j], regions[k])
    {
      for second := first + 1 to |regions|
        invariant forall k :: first < k < second ==> !Overlap(regions[first], regions[k])
      {
        if Overlap(regions[first], regions[second]) { return true; }
      }
    }
    return false;
  }

  lemma {:induction false} RegionsAcceptable(info: PeInfo, sections: seq<Section>)
    requires forall s :: s in sections ==> AcceptableRegion(info, SectionRegion(s))
    ensures forall r :: r in RegionsOf(sections) ==>
                          r.size > 0 && r.rawSize <= r.size && r.End() <= info.sizeOfImage
                              && info.sizeOfHeaders <= r.rva
  {
    if sections != [] { RegionsAcceptable(info, sections[..|sections| - 1]); }
  }

  // One section: its file bytes, then zeros. The memory may already hold other sections.
  method CopySection(memory: array<byte>, r: MapRegion, file: seq<byte>)
    requires r.End() <= memory.Length && r.rawSize <= r.size
    modifies memory
    ensures forall i :: 0 <= i < memory.Length ==>
      memory[i] == if Inside(r, i) then FileByte(r, file, i) else old(memory[i])
  {
    if r.rawSize == 0 || r.rawPointer >= |file| {
      forall i | r.rva <= i < r.End() { memory[i] := 0; }
      return;
    }
    var copySize := if r.rawSize <= |file| - r.rawPointer then r.rawSize else |file| - r.rawPointer;
    forall i | r.rva <= i < r.rva + copySize { memory[i] := file[r.rawPointer + (i - r.rva)]; }
    forall i | r.rva + copySize <= i < r.End() { memory[i] := 0; }
  }

  method LoadContents(memory: array<byte>, regions: seq<MapRegion>, headersSize: nat, file: seq<byte>)
    requires forall i :: 0 <= i < memory.Length ==> memory[i] == 0
    requires Disjoint(regions) && headersSize <= memory.Length
    requires forall r :: r in regions ==> r.End() <= memory.Length && r.rawSize <= r.size
    modifies memory
    ensures Loaded(memory[..], regions, headersSize, file)
  {
    var headerCopy := if headersSize <= |file| then headersSize else |file|;
    forall i | 0 <= i < headerCopy { memory[i] := file[i]; }
    for k := 0 to |regions|
      invariant Loaded(memory[..], regions[..k], headersSize, file)
    {
      var was := memory[..];
      CopySection(memory, regions[k], file);
      forall j, i | 0 <= j <= k && 0 <= i < memory.Length && Inside(regions[j], i)
        ensures memory[i] == FileByte(regions[j], file, i)
      {
        if j < k {
          assert !Overlap(regions[j], regions[k]);
          assert was[i] == FileByte(regions[..k][j], file, i);
        }
      }
      forall i | 0 <= i < memory.Length && Outside(regions[..k + 1], i)
        ensures memory[i] == if i < headersSize && i < |file| then file[i] else 0
      {
        assert forall j :: 0 <= j < k ==> regions[..k][j] == regions[..k + 1][j];
        assert regions[..k + 1][k] == regions[k];
        assert memory[i] == was[i];
      }
    }
    assert regions[..|regions|] == regions;
  }

  // The two protection loops of map_image. Orphan pages stay inaccessible.
  method ProtectPages(image: MappedImage) returns (ok: bool)
    requires image.WellFormed()
    modifies image.protection
    ensures ok ==> forall i :: 0 <= i < image.protection.Length ==>
      image.protection[i] == Layout(image.regions, image.headersSize, image.page, i)
  {
    var regions, page, headersSize := image.regions, image.page, image.headersSize;
    var size := image.protection.Length;
    ok := image.Mprotect(0, size, NoAccess);
    if !ok { return; }
    for k := 0 to |regions|
      invariant forall i :: 0 <= i < size ==>
        image.protection[i] == SectionLayout(regions, headersSize, page, k, i)
    {
      assert regions[k] in regions;
      var pageStart, pageEnd := AlignDown(regions[k].rva, page), AlignUp(regions[k].End(), page);
      AlignUpStaysBelow(regions[k].End(), size, page);
      var p := PermissionsForPage(regions, pageStart, pageEnd, headersSize);
      ok := image.Mprotect(pageStart, pageEnd, p);
      if !ok { return; }
    }
    var headerEnd := AlignUp(headersSize, page);
    AlignUpStaysBelow(headersSize, size, page);
    if headerEnd > 0 {
      var p := PermissionsForPage(regions, 0, headerEnd, headersSize);
      ok := image.Mprotect(0, headerEnd, p);
    }
  }

  // Whether relocation of an image mapped delta away from its preferred base goes wrong.
  ghost predicate RelocationFails(loaded: seq<byte>, info: PeInfo, delta: int) {
    || ((info.relocations.rva == 0) != (info.relocations.size == 0))
    || (delta != 0 && (info.relocations.size == 0
                       || Relocate(loaded, info.relocations, delta, Ranges(RegionsOf(info.sections))).failed))
  }

  ghost function Relocated(loaded: seq<byte>, info: PeInfo, delta: int): seq<byte> {
    if delta == 0 then loaded
    else Relocate(loaded, info.relocations, delta, Ranges(RegionsOf(info.sections))).image
  }

  // What a successful call has built: the contents relocated to where the image ended up,
  // and the protections of its layout.
  ghost predicate MappedCorrectly(image: MappedImage, info: PeInfo, file: seq<byte>, loaded: seq<byte>, delta: int)
    requires image.page > 0
    reads image.memory, image.protection
  {
    && image.WellFormed() && image.regions == RegionsOf(info.sections) && image.headersSize == info.sizeOfHeaders
    && image.memory.Length == AlignUp(info.sizeOfImage, image.page)
    && |loaded| == image.memory.Length && Loaded(loaded, image.regions, image.headersSize, file)
    && image.memory[..] == Relocated(loaded, info, delta)
    && forall i :: 0 <= i < image.protection.Length ==>
         image.protection[i] == Layout(image.regions, image.headersSize, image.page, i)
  }

  // mmapBase is the address the system chose, or nothing when it refused to reserve memory.
  method MapImage(info: PeInfo, file: seq<byte>, preferredBase: nat, page: nat, mmapBase: seq<nat>)
    returns (status: MapStatus, image: MappedImage?, ghost loaded: seq<byte>)
    requires page > 0 && |mmapBase| <= 1
    ensures status == Mapped <==> image != null
    ensures !AcceptableImage(info, page) ==> status == Malformed
    ensures AcceptableImage(info, page) && mmapBase == [] ==> status == OutOfMemory
    ensures AcceptableImage(info, page) && |mmapBase| == 1 ==>
      var delta := mmapBase[0] - (if preferredBase != 0 then preferredBase else info.imageBase);
      && |loaded| == AlignUp(info.sizeOfImage, page)
      && Loaded(loaded, RegionsOf(info.sections), info.sizeOfHeaders, file)
      && (status == Malformed <==> RelocationFails(loaded, info, delta))
      && (image != null ==> image.page == page && image.base == mmapBase[0]
                            && MappedCorrectly(image, info, file, loaded, delta))
    ensures image != null ==> image.page > 0 && image.WriteXorExecute()
    ensures image != null && NoSharedPages(image.regions, image.headersSize, page) ==>
      image.page == page && image.Faithful()
    ensures image != null ==>
      (image.Faithful() <==> forall i :: 0 <= i < image.protection.Length ==>
                               NoneAsksForMore(image.regions, image.headersSize, image.page, i))
  {
    loaded := [];
    var mappingSize := AlignUp(info.sizeOfImage, page);
    if mappingSize == 0 || mappingSize > MAX_SIZE_OF_IMAGE { return Malformed, null, loaded; }
    if info.sizeOfHeaders == 0 || info.sizeOfHeaders > info.sizeOfImage { return Malformed, null, loaded; }
    var ok, regions := BuildRegions(info);
    if !ok { return Malformed, null, loaded; }
    var overlap := HasOverlap(regions);
    if overlap { return Malformed, null, loaded; }
    if |mmapBase| == 0 { return OutOfMemory, null, loaded; }
    var preferred := if preferredBase != 0 then preferredBase else info.imageBase;
    RegionsAcceptable(info, info.sections);
    var mapped := new MappedImage(page, mmapBase[0], info.sizeOfHeaders, regions, mappingSize);
    AlignedUpIsAligned(info.sizeOfImage, page);
    LoadContents(mapped.memory, regions, info.sizeOfHeaders, file);
    loaded := mapped.memory[..];
    var delta := mmapBase[0] - preferred;
    if (info.relocations.rva == 0) != (info.relocations.size == 0) { return Malformed, null, loaded; }
    if delta != 0 && info.relocations.size == 0 { return Malformed, null, loaded; }
    if delta != 0 {
      var result := ApplyRelocations(mapped.memory, info.relocations, delta, Ranges(regions));
      if result.InvalidImage? { return Malformed, null, loaded; }
    }
    ok := ProtectPages(mapped);
    if !ok { return OutOfMemory, null, loaded; }
    FreshProtections(mapped);
    return Mapped, mapped, loaded;
  }

  lemma FreshProtections(image: MappedImage)
    requires image.WellFormed()
    requires forall i :: 0 <= i < image.protection.Length ==>
      image.protection[i] == Layout(image.regions, image.headersSize, image.page, i)
    ensures image.WriteXorExecute()
    ensures NoSharedPages(image.regions, image.headersSize, image.page) ==> image.Faithful()
    ensures image.Faithful() <==> forall i :: 0 <= i < image.protection.Length ==>
                                    NoneAsksForMore(image.regions, image.headersSize, image.page, i)
  {
    hide NoneAsksForMore, EffectivePermissions, Layout;
    forall i | 0 <= i < image.protection.Length
      ensures image.protection[i] == EffectivePermissions(image.regions, image.headersSize, image.page, i)
              <==> NoneAsksForMore(image.regions, image.headersSize, image.page, i)
    {
      LayoutIsEffectiveExactlyWhen(image.regions, image.headersSize, image.page, i);
    }
    forall i | 0 <= i < image.protection.Length
      ensures !(Writable(image.protection[i]) && Executable(image.protection[i]))
    {
      LayoutNeverBoth(image.regions, image.headersSize, image.page, |image.regions|, i);
    }
    if NoSharedPages(image.regions, image.headersSize, image.page) {
      forall i | 0 <= i < image.protection.Length
        ensures image.protection[i] == EffectivePermissions(image.regions, image.headersSize, image.page, i)
      {
        LayoutIsEffective(image.regions, image.headersSize, image.page, i);
      }
    }
  }

  lemma {:induction false} LayoutNeverBoth(regions: seq<MapRegion>, headersSize: nat, page: nat, n: nat, i: nat)
    requires page > 0 && n <= |regions|
    ensures var p := SectionLayout(regions, headersSize, page, n, i); !(Writable(p) && Executable(p))
    ensures var p := Layout(regions, headersSize, page, i); n == |regions| ==> !(Writable(p) && Executable(p))
  {
    if n > 0 { LayoutNeverBoth(regions, headersSize, page, n - 1, i); }
  }
}
