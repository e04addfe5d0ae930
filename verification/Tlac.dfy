// The binary catalog format TLAC version 1: the decoder of
// src/catalog/rust_app_catalog_parser.cpp, against a description of the layout.
module Tlac {
  import opened LittleEndian
  import opened Catalog

  datatype Option<+T> = None | Some(value: T)

  const HEADER_SIZE: nat := 128
  const DESCRIPTOR_OFFSET: nat := 32
  const DESCRIPTOR_SIZE: nat := 24
  const INFO_STRIDE: nat := 32
  const APP_STRIDE: nat := 192
  const ARG_STRIDE: nat := 16
  const STRING_HEADER_SIZE: nat := 8
  const VARIABLE_RECORDS: nat := 1
  const ARGS_INDEX_OFFSET: nat := 144
  const ARGS_COUNT_OFFSET: nat := 152
  const CPU_LIMIT_OFFSET: nat := 160
  const MEMORY_LIMIT_OFFSET: nat := 168
  const RESERVED_OFFSET: nat := 176
  const MAX_APPS: nat := 65535
  const MAX_ARGS: nat := 262144
  const MAX_STRINGS: nat := 1048576
  const MAX_STRING_BYTES: nat := 1048576
  const MAX_DECODED_STRING_BYTES: nat := 16777216
  const MAX_SERIALIZED_BYTES: nat := 67108864
  const MAX_U64: nat := 0xFFFF_FFFF_FFFF_FFFF

  datatype Descriptor = Descriptor(offset: nat, count: nat, stride: nat, flags: nat)

  // Where the payload of a string lies.
  datatype Record = Record(at: nat, length: nat)

  type Wire = seq<byte>

  // ---------------------------------------------------------------- the layout

  function Text(bytes: seq<byte>): (s: string)
    ensures |s| == |bytes| && forall i :: 0 <= i < |s| ==> s[i] == bytes[i] as char
  {
    seq(|bytes|, i requires 0 <= i < |bytes| => bytes[i] as char)
  }

  function Align8(n: nat): (r: nat)
    ensures n <= r < n + 8 && r % 8 == 0
  {
    (n + 7) / 8 * 8
  }

  predicate Zero(wire: Wire, from: nat, to: nat) {
    to <= |wire| && forall i :: from <= i < to ==> wire[i] == 0
  }

  predicate HeaderOk(wire: Wire) {
    && HEADER_SIZE <= |wire| <= MAX_SERIALIZED_BYTES
    && wire[0] == 0x54 && wire[1] == 0x4C && wire[2] == 0x41 && wire[3] == 0x43
    && Word(wire, 4, 2) == 1 && Word(wire, 6, 2) == 0
    && Word(wire, 8, 4) == HEADER_SIZE && Word(wire, 12, 8) == |wire|
    && Word(wire, 20, 4) == 4 && Word(wire, 24, 4) == 0 && Word(wire, 28, 4) == 0
  }

  function Table(wire: Wire, k: nat): Descriptor
    requires HEADER_SIZE <= |wire| && k < 4
  {
    var base := DESCRIPTOR_OFFSET + k * DESCRIPTOR_SIZE;
    Descriptor(Word(wire, base, 8), Word(wire, base + 8, 8), Word(wire, base + 16, 4), Word(wire, base + 20, 4))
  }

  function Info(wire: Wire): Descriptor requires HEADER_SIZE <= |wire| { Table(wire, 0) }
  function Apps(wire: Wire): Descriptor requires HEADER_SIZE <= |wire| { Table(wire, 1) }
  function Args(wire: Wire): Descriptor requires HEADER_SIZE <= |wire| { Table(wire, 2) }
  function Strings(wire: Wire): Descriptor requires HEADER_SIZE <= |wire| { Table(wire, 3) }

  // A table descriptor of the given shape. The string table, of stride 0, extends to the end.
  predicate TableOk(d: Descriptor, stride: nat, flags: nat, limit: nat, total: nat) {
    && d.count <= limit && d.stride == stride && d.flags == flags
    && if d.count == 0 then d.offset == 0
       else HEADER_SIZE <= d.offset && d.offset % 8 == 0 && d.offset + d.count * stride <= total
  }

  function End(d: Descriptor, total: nat): nat {
    if d.count == 0 then 0 else if d.stride == 0 then total else d.offset + d.count * d.stride
  }

  // A non-empty table comes after another, whether that one is empty or not.
  predicate Follows(d: Descriptor, before: Descriptor, total: nat) { d.count == 0 || End(before, total) <= d.offset }

  predicate TablesOk(wire: Wire) {
    && HEADER_SIZE <= |wire| && var total := |wire|;
    && Info(wire).offset == HEADER_SIZE && Info(wire).count == 1
    && TableOk(Info(wire), INFO_STRIDE, 0, 1, total)
    && TableOk(Apps(wire), APP_STRIDE, 0, MAX_APPS, total)
    && TableOk(Args(wire), ARG_STRIDE, 0, MAX_ARGS, total)
    && TableOk(Strings(wire), 0, VARIABLE_RECORDS, MAX_STRINGS, total)
    && forall i: nat, j: nat {:trigger Table(wire, i), Table(wire, j)} :: i < j < 4 ==>
         Follows(Table(wire, j), Table(wire, i), total)
  }

  predicate Inside(d: Descriptor, total: nat, i: nat) { d.count > 0 && d.offset <= i < End(d, total) }

  predicate InTables(wire: Wire, i: nat)
    requires HEADER_SIZE <= |wire|
  {
    exists k: nat :: k < 4 && Inside(Table(wire, k), |wire|, i)
  }

  // Bytes after the header that belong to no table are zero, and some table ends where the
  // buffer does.
  predicate GapsOk(wire: Wire) {
    && HEADER_SIZE <= |wire|
    && (forall i :: HEADER_SIZE <= i < |wire| && !InTables(wire, i) ==> wire[i] == 0)
    && exists k: nat :: k < 4 && End(Table(wire, k), |wire|) == |wire|
  }

  function RecordEnd(r: Record): nat { Align8(r.at + r.length) }

  function RecordStart(offset: nat, records: seq<Record>, i: nat): nat
    requires i <= |records|
  {
    if i == 0 then offset else RecordEnd(records[i - 1])
  }

  predicate RecordOk(wire: Wire, start: nat, r: Record) {
    && start + STRING_HEADER_SIZE == r.at && RecordEnd(r) <= |wire|
    && Word(wire, start, 4) == r.length && Word(wire, start + 4, 4) == 0
    && 0 < r.length <= MAX_STRING_BYTES
    && Zero(wire, r.at + r.length, RecordEnd(r))
  }

  function TotalLength(records: seq<Record>): nat {
    if records == [] then 0 else TotalLength(records[..|records| - 1]) + records[|records| - 1].length
  }

  function Value(wire: Wire, r: Record): string
    requires r.at + r.length <= |wire|
  {
    Text(wire[r.at..r.at + r.length])
  }

  predicate RecordsAt(wire: Wire, offset: nat, records: seq<Record>) {
    forall i :: 0 <= i < |records| ==> RecordOk(wire, RecordStart(offset, records, i), records[i])
  }

  predicate RecordsOk(wire: Wire, offset: nat, records: seq<Record>) {
    && RecordsAt(wire, offset, records)
    && (forall i, j :: 0 <= i < j < |records| ==> Value(wire, records[i]) != Value(wire, records[j]))
    && TotalLength(records) <= MAX_DECODED_STRING_BYTES
  }

  // The string records tile the string table up to the end of the buffer.
  predicate StringsOk(wire: Wire, records: seq<Record>) {
    && HEADER_SIZE <= |wire| && |records| == Strings(wire).count
    && RecordsOk(wire, Strings(wire).offset, records)
    && (records != [] ==> RecordStart(Strings(wire).offset, records, |records|) == |wire|)
  }

  // A string reference: the empty string, or one of the records.
  function Reference(wire: Wire, at: nat, records: seq<Record>): Option<string>
    requires at + 16 <= |wire|
  {
    var r := Record(Word(wire, at, 8), Word(wire, at + 8, 8));
    if r == Record(0, 0) then Some([])
    else if r in records && r.at + r.length <= |wire| then Some(Value(wire, r)) else None
  }

  predicate RefersTo(wire: Wire, at: nat, records: seq<Record>, value: string) {
    at + 16 <= |wire| && Reference(wire, at, records) == Some(value)
  }

  predicate InfoOk(wire: Wire) {
    && HEADER_SIZE + INFO_STRIDE <= |wire|
    && Word(wire, HEADER_SIZE, 4) == 1 && Word(wire, HEADER_SIZE + 4, 4) == 0
    && Word(wire, HEADER_SIZE + 8, 8) == Apps(wire).count && Word(wire, HEADER_SIZE + 16, 8) == Args(wire).count
    && Zero(wire, HEADER_SIZE + 24, HEADER_SIZE + 32)
  }

  predicate ArgsOk(wire: Wire, records: seq<Record>, args: seq<string>) {
    && HEADER_SIZE <= |wire| && |args| == Args(wire).count
    && forall i: nat :: i < |args| ==> RefersTo(wire, Args(wire).offset + i * ARG_STRIDE, records, args[i])
  }

  // The arguments of all applications, one after another.
  function AllArgs(apps: seq<AppEntry>): seq<string> {
    if apps == [] then [] else AllArgs(apps[..|apps| - 1]) + apps[|apps| - 1].args
  }

  // The text fields of an application in the order of its record.
  function Fields(app: AppEntry): (fields: seq<string>)
    ensures |fields| == 9
  {
    [app.id, app.name, app.executablePath, app.prefixPath, app.iconPath, app.workingDirectory, app.sha256,
     app.version, app.createdAt]
  }

  predicate FieldsOk(wire: Wire, at: nat, records: seq<Record>, fields: seq<string>) {
    forall k: nat :: k < |fields| ==> RefersTo(wire, at + k * 16, records, fields[k])
  }

  // An application record; its arguments start where those of the ones before end.
  predicate AppOk(wire: Wire, at: nat, records: seq<Record>, app: AppEntry, firstArg: nat) {
    && at + APP_STRIDE <= |wire| && FieldsOk(wire, at, records, Fields(app))
    && Word(wire, at + ARGS_INDEX_OFFSET, 8) == (if app.args == [] then 0 else firstArg)
    && Word(wire, at + ARGS_COUNT_OFFSET, 8) == |app.args|
    && Word(wire, at + CPU_LIMIT_OFFSET, 8) == app.cpuLimitSeconds
    && Word(wire, at + MEMORY_LIMIT_OFFSET, 8) == app.memoryLimitMib
    && Zero(wire, at + RESERVED_OFFSET, at + APP_STRIDE)
    && IsSafeAppId(app.id) && app.executablePath != []
  }

  predicate AppsOk(wire: Wire, records: seq<Record>, apps: seq<AppEntry>) {
    && HEADER_SIZE <= |wire| && |apps| == Apps(wire).count && DistinctIds(apps)
    && forall i: nat :: i < |apps| ==>
         AppOk(wire, Apps(wire).offset + i * APP_STRIDE, records, apps[i], |AllArgs(apps[..i])|)
  }

  // The bytes represent these applications.
  ghost predicate Layout(wire: Wire, records: seq<Record>, apps: seq<AppEntry>) {
    && HeaderOk(wire) && TablesOk(wire) && GapsOk(wire) && StringsOk(wire, records) && InfoOk(wire)
    && ArgsOk(wire, records, AllArgs(apps)) && AppsOk(wire, records, apps)
  }

  ghost predicate Represents(wire: Wire, apps: seq<AppEntry>) { exists records :: Layout(wire, records, apps) }

  // ---------------------------------------------------------------- at most one reading

  lemma RecordDetermined(wire: Wire, start: nat, r: Record, q: Record)
    requires RecordOk(wire, start, r) && RecordOk(wire, start, q)
    ensures r == q
  {
  }

  lemma {:induction false} RecordsUnique(wire: Wire, offset: nat, a: seq<Record>, b: seq<Record>, i: nat)
    requires RecordsAt(wire, offset, a) && RecordsAt(wire, offset, b) && i < |a| && i < |b|
    ensures a[i] == b[i]
  {
    hide RecordOk, RecordEnd;
    if i > 0 { RecordsUnique(wire, offset, a, b, i - 1); }
    assert RecordStart(offset, a, i) == RecordStart(offset, b, i);
    RecordDetermined(wire, RecordStart(offset, a, i), a[i], b[i]);
  }

  lemma {:induction false} AllArgsPrefix(apps: seq<AppEntry>, n: nat)
    requires n <= |apps|
    ensures AllArgs(apps[..n]) <= AllArgs(apps)
    ensures n < |apps| ==> AllArgs(apps[..n + 1]) == AllArgs(apps[..n]) + apps[n].args
    decreases |apps|
  {
    if n == |apps| { assert apps[..n] == apps; }
    else {
      assert apps[..n + 1][..n] == apps[..n];
      assert apps[..|apps| - 1][..n] == apps[..n];
      AllArgsPrefix(apps[..|apps| - 1], n);
    }
  }

  lemma FieldsDetermined(wire: Wire, at: nat, records: seq<Record>, f: seq<string>, g: seq<string>)
    requires FieldsOk(wire, at, records, f) && FieldsOk(wire, at, records, g) && |f| == |g|
    ensures f == g
  {
    hide Reference;
    forall k: nat | k < |f| ensures f[k] == g[k] {
      assert RefersTo(wire, at + k * 16, records, f[k]) && RefersTo(wire, at + k * 16, records, g[k]);
    }
  }

  lemma AppDetermined(wire: Wire, at: nat, records: seq<Record>, a: AppEntry, b: AppEntry, i: nat, j: nat)
    requires AppOk(wire, at, records, a, i) && AppOk(wire, at, records, b, j) && a.args == b.args
    ensures a == b
  {
    hide Word, FieldsOk, Zero;
    FieldsDetermined(wire, at, records, Fields(a), Fields(b));
    assert forall k :: 0 <= k < 9 ==> Fields(a)[k] == Fields(b)[k];
  }

  lemma {:induction false} AppsUnique(wire: Wire, records: seq<Record>, a: seq<AppEntry>, b: seq<AppEntry>, n: nat)
    requires AppsOk(wire, records, a) && AppsOk(wire, records, b) && AllArgs(a) == AllArgs(b) && n <= |a|
    ensures a[..n] == b[..n]
  {
    hide AppOk, DistinctIds, AllArgs, Apps;
    assert |a| == |b|;
    if n > 0 {
      AppsUnique(wire, records, a, b, n - 1);
      AppUnique(wire, records, a, b, n - 1);
      assert a[..n] == a[..n - 1] + [a[n - 1]] && b[..n] == b[..n - 1] + [b[n - 1]];
    }
  }

  // Application m is determined by those before it.
  lemma AppUnique(wire: Wire, records: seq<Record>, a: seq<AppEntry>, b: seq<AppEntry>, m: nat)
    requires AppsOk(wire, records, a) && AppsOk(wire, records, b) && AllArgs(a) == AllArgs(b)
    requires m < |a| && m < |b| && a[..m] == b[..m]
    ensures a[m] == b[m]
  {
    hide AppOk, DistinctIds, AllArgs;
    var at, i := Apps(wire).offset + m * APP_STRIDE, |AllArgs(a[..m])|;
    assert AppOk(wire, at, records, a[m], i) && AppOk(wire, at, records, b[m], i);
    SameArgsCount(wire, at, records, a[m], b[m], i);
    SameArgs(a, b, m);
    AppDetermined(wire, at, records, a[m], b[m], i, i);
  }

  lemma SameArgsCount(wire: Wire, at: nat, records: seq<Record>, a: AppEntry, b: AppEntry, i: nat)
    requires AppOk(wire, at, records, a, i) && AppOk(wire, at, records, b, i)
    ensures |a.args| == |b.args|
  {
    hide FieldsOk, Word, Zero, IsSafeAppId;
  }

  lemma ArgAt(apps: seq<AppEntry>, n: nat, j: nat)
    requires n < |apps| && j < |apps[n].args|
    ensures |AllArgs(apps[..n])| + j < |AllArgs(apps)|
    ensures AllArgs(apps)[|AllArgs(apps[..n])| + j] == apps[n].args[j]
  {
    hide AllArgs;
    AllArgsPrefix(apps, n);
    AllArgsPrefix(apps, n + 1);
  }

  lemma SameArgs(a: seq<AppEntry>, b: seq<AppEntry>, n: nat)
    requires AllArgs(a) == AllArgs(b) && n < |a| && n < |b| && a[..n] == b[..n] && |a[n].args| == |b[n].args|
    ensures a[n].args == b[n].args
  {
    hide AllArgs;
    forall j: nat | j < |a[n].args| ensures a[n].args[j] == b[n].args[j] {
      ArgAt(a, n, j);
      ArgAt(b, n, j);
    }
  }

  lemma ArgsUnique(wire: Wire, records: seq<Record>, x: seq<string>, y: seq<string>)
    requires ArgsOk(wire, records, x) && ArgsOk(wire, records, y)
    ensures x == y
  {
    hide Reference, Table;
    forall i: nat | i < |x| ensures x[i] == y[i] {
      assert RefersTo(wire, Args(wire).offset + i * ARG_STRIDE, records, x[i]);
      assert RefersTo(wire, Args(wire).offset + i * ARG_STRIDE, records, y[i]);
    }
  }

  lemma StringsUnique(wire: Wire, a: seq<Record>, b: seq<Record>)
    requires StringsOk(wire, a) && StringsOk(wire, b)
    ensures a == b
  {
    hide RecordsAt, Table;
    forall i | 0 <= i < |a| ensures a[i] == b[i] { RecordsUnique(wire, Strings(wire).offset, a, b, i); }
  }

  // Bytes represent at most one list of applications.
  lemma LayoutIsUnique(wire: Wire, r: seq<Record>, a: seq<AppEntry>, s: seq<Record>, b: seq<AppEntry>)
    requires Layout(wire, r, a) && Layout(wire, s, b)
    ensures r == s && a == b
  {
    hide HeaderOk, TablesOk, GapsOk, StringsOk, InfoOk, ArgsOk, AppOk, DistinctIds, Table;
    StringsUnique(wire, r, s);
    ArgsUnique(wire, r, AllArgs(a), AllArgs(b));
    AppsUnique(wire, r, a, b, |a|);
    assert a[..|a|] == a && b[..|a|] == b;
  }
}
