// decode_tlac_v1 (src/catalog/rust_app_catalog_parser.cpp): it accepts exactly the buffers
// that represent a catalog, and returns that catalog.
module TlacDecoder {
  import opened LittleEndian
  import opened Catalog
  import opened Tlac

  // ---------------------------------------------------------------- checked arithmetic

  function AddU64(a: nat, b: nat): (r: Option<nat>)
    requires a <= MAX_U64
    ensures r == if a + b <= MAX_U64 then Some(a + b) else None
  {
    if b > MAX_U64 - a then None else Some(a + b)
  }

  function MultiplyU64(a: nat, b: nat): (r: Option<nat>)
    ensures r == if a * b <= MAX_U64 then Some(a * b) else None
  {
    ProductFits(a, b);
    if a != 0 && b > MAX_U64 / a then None else Some(a * b)
  }

  lemma ProductFits(a: nat, b: nat)
    ensures a != 0 && b > MAX_U64 / a <==> a * b > MAX_U64
  {
    if a != 0 {
      var q := MAX_U64 / a;
      if b > q { assert a * b >= a * (q + 1) by { Multiply(a, q + 1, b); } }
      else { assert a * b <= a * q by { Multiply(a, b, q); } }
    }
  }

  lemma Multiply(a: nat, b: nat, c: nat)
    requires b <= c
    ensures a * b <= a * c
  {
  }

  function Align8U64(a: nat): (r: Option<nat>)
    ensures r == if a + 7 <= MAX_U64 then Some(Align8(a)) else None
  {
    if a > MAX_U64 - 7 then None else Some(Align8(a))
  }

  predicate HasRange(offset: nat, length: nat, total: nat) { offset <= total && length <= total - offset }

  // ---------------------------------------------------------------- primitive reads

  method ReadWord(wire: Wire, at: nat, n: nat) returns (value: Option<nat>)
    ensures value == if at + n <= |wire| then Some(Word(wire, at, n)) else None
  {
    if !HasRange(at, n, |wire|) { return None; }
    var sum: nat := 0;
    for index := n downto 0
      invariant sum == Word(wire, at + index, n - index)
    {
      sum := wire[at + index] + 256 * sum;
    }
    return Some(sum);
  }

  method ZeroRange(wire: Wire, at: nat, length: nat) returns (ok: bool)
    ensures ok <==> Zero(wire, at, at + length)
  {
    if !HasRange(at, length, |wire|) { return false; }
    for index := at to at + length
      invariant Zero(wire, at, index)
    {
      if wire[index] != 0 { return false; }
    }
    return true;
  }

  method CheckHeader(wire: Wire) returns (ok: bool)
    ensures ok <==> HeaderOk(wire)
  {
    hide Word;
    if |wire| < HEADER_SIZE || |wire| > MAX_SERIALIZED_BYTES { return false; }
    if wire[0] != 0x54 || wire[1] != 0x4C || wire[2] != 0x41 || wire[3] != 0x43 { return false; }
    var major := ReadWord(wire, 4, 2);
    var minor := ReadWord(wire, 6, 2);
    var headerSize := ReadWord(wire, 8, 4);
    var totalSize := ReadWord(wire, 12, 8);
    var tableCount := ReadWord(wire, 20, 4);
    var flags := ReadWord(wire, 24, 4);
    var reserved := ReadWord(wire, 28, 4);
    return major == Some(1) && minor == Some(0) && headerSize == Some(HEADER_SIZE) && totalSize == Some(|wire|)
      && tableCount == Some(4) && flags == Some(0) && reserved == Some(0);
  }

  method ReadDescriptors(wire: Wire) returns (tables: seq<Descriptor>)
    requires HEADER_SIZE <= |wire|
    ensures |tables| == 4 && forall k: nat :: k < 4 ==> tables[k] == Table(wire, k)
  {
    hide Word;
    tables := [];
    for k := 0 to 4
      invariant |tables| == k && forall j: nat :: j < k ==> tables[j] == Table(wire, j)
    {
      var base := DESCRIPTOR_OFFSET + k * DESCRIPTOR_SIZE;
      var offset := ReadWord(wire, base, 8);
      var count := ReadWord(wire, base + 8, 8);
      var stride := ReadWord(wire, base + 16, 4);
      var flags := ReadWord(wire, base + 20, 4);
      tables := tables + [Descriptor(offset.value, count.value, stride.value, flags.value)];
    }
  }

  // descriptor_range: the shape of one table, and where it ends.
  method DescriptorRange(d: Descriptor, stride: nat, flags: nat, limit: nat, total: nat) returns (end: Option<nat>)
    requires total <= MAX_SERIALIZED_BYTES && d.offset <= MAX_U64
    ensures end == if TableOk(d, stride, flags, limit, total) then Some(End(d, total)) else None
  {
    if d.count > limit { return None; }
    if d.count == 0 {
      if d.offset != 0 || d.stride != stride || d.flags != flags { return None; }
      return Some(0);
    }
    if d.offset < HEADER_SIZE || d.offset % 8 != 0 || d.stride != stride || d.flags != flags { return None; }
    if stride == 0 {
      return if HasRange(d.offset, 0, total) then Some(total) else None;
    }
    var length := MultiplyU64(d.count, d.stride);
    if length.None? { return None; }
    var sum := AddU64(d.offset, length.value);
    if sum.None? || !HasRange(d.offset, length.value, total) { return None; }
    return sum;
  }

  // The tables come in order and do not overlap.
  method CheckOrder(tables: seq<Descriptor>, ends: seq<nat>, total: nat) returns (ok: bool, lastEnd: nat)
    requires |tables| == |ends| == 4 && tables[0].count > 0
    requires forall k :: 0 <= k < 4 ==> ends[k] == End(tables[k], total)
    requires forall k :: 0 <= k < 4 && tables[k].count > 0 ==> tables[k].offset <= ends[k]
    ensures ok <==> forall i: nat, j: nat :: i < j < 4 ==> Follows(tables[j], tables[i], total)
    ensures ok ==> (forall k :: 0 <= k < 4 ==> ends[k] <= lastEnd) && exists k :: 0 <= k < 4 && ends[k] == lastEnd
  {
    lastEnd := ends[0];
    for k := 0 to 4
      invariant forall i: nat, j: nat :: i < j < k ==> Follows(tables[j], tables[i], total)
      invariant forall i :: 0 <= i < k ==> ends[i] <= lastEnd
      invariant exists i :: 0 <= i < 4 && (i == 0 || i < k) && ends[i] == lastEnd
    {
      if tables[k].count == 0 { continue; }
      if k != 0 && tables[k].offset < lastEnd {
        var i :| 0 <= i < 4 && (i == 0 || i < k) && ends[i] == lastEnd;
        assert !Follows(tables[k], tables[i], total);
        return false, lastEnd;
      }
      if k != 0 { lastEnd := ends[k]; }
    }
    ok := true;
  }

  method CheckTables(wire: Wire) returns (ok: bool, tables: seq<Descriptor>, ends: seq<nat>, lastEnd: nat)
    requires HeaderOk(wire)
    ensures ok <==> TablesOk(wire)
    ensures |tables| == 4 && forall k: nat :: k < 4 ==> tables[k] == Table(wire, k)
    ensures ok ==> |ends| == 4 && forall k: nat :: k < 4 ==> ends[k] == End(tables[k], |wire|) <= lastEnd
    ensures ok ==> exists k: nat :: k < 4 && ends[k] == lastEnd
  {
    hide Word, HeaderOk;
    var total := |wire|;
    assert HEADER_SIZE <= total <= MAX_SERIALIZED_BYTES by { HeaderSizes(wire); }
    tables := ReadDescriptors(wire);
    OffsetsFit(wire);
    ends, lastEnd := [], 0;
    if tables[0].offset != HEADER_SIZE { return false, tables, ends, lastEnd; }
    var info := DescriptorRange(tables[0], INFO_STRIDE, 0, 1, total);
    if info.None? || tables[0].count != 1 { return false, tables, ends, lastEnd; }
    var apps := DescriptorRange(tables[1], APP_STRIDE, 0, MAX_APPS, total);
    if apps.None? { return false, tables, ends, lastEnd; }
    var args := DescriptorRange(tables[2], ARG_STRIDE, 0, MAX_ARGS, total);
    if args.None? { return false, tables, ends, lastEnd; }
    var strings := DescriptorRange(tables[3], 0, VARIABLE_RECORDS, MAX_STRINGS, total);
    if strings.None? { return false, tables, ends, lastEnd; }
    ends := [info.value, apps.value, args.value, strings.value];
    ok, lastEnd := CheckOrder(tables, ends, total);
    if !ok {
      var i: nat, j: nat :| i < j < 4 && !Follows(tables[j], tables[i], total);
      assert !Follows(Table(wire, j), Table(wire, i), total);
    }
  }

  lemma HeaderSizes(wire: Wire)
    requires HeaderOk(wire)
    ensures HEADER_SIZE <= |wire| <= MAX_SERIALIZED_BYTES
  {
  }

  lemma OffsetsFit(wire: Wire)
    requires HEADER_SIZE <= |wire|
    ensures forall k: nat :: k < 4 ==> Table(wire, k).offset <= MAX_U64
  {
    Pow256Values();
  }

  // Everything between and after the tables is zero, and nothing follows the last one.
  method CheckGaps(wire: Wire, tables: seq<Descriptor>, ends: seq<nat>, lastEnd: nat) returns (ok: bool)
    requires HeaderOk(wire) && TablesOk(wire) && |tables| == |ends| == 4
    requires forall k: nat :: k < 4 ==> tables[k] == Table(wire, k) && ends[k] == End(tables[k], |wire|) <= lastEnd
    requires exists k: nat :: k < 4 && ends[k] == lastEnd
    ensures ok <==> GapsOk(wire)
  {
    hide Word, HeaderOk, Table;
    EndsInside(wire);
    var total := |wire|;
    if tables[3].count == 0 && total != lastEnd {
      assert forall k: nat :: k < 4 ==> End(Table(wire, k), total) == ends[k] < total;
      return false;
    }
    var gap := HEADER_SIZE;
    for k := 0 to 4
      invariant HEADER_SIZE <= gap <= total
      invariant forall j: nat :: j < k ==> ends[j] <= gap
      invariant gap == HEADER_SIZE || exists j: nat :: j < k && ends[j] == gap
      invariant forall i: nat :: HEADER_SIZE <= i < gap ==> wire[i] == 0 || InTables(wire, i)
    {
      if tables[k].count == 0 { continue; }
      assert gap <= tables[k].offset by {
        if gap != HEADER_SIZE {
          var j: nat :| j < k && ends[j] == gap;
          assert Follows(Table(wire, k), Table(wire, j), total);
        }
      }
      var zero := ZeroRange(wire, gap, tables[k].offset - gap);
      if tables[k].offset < gap || !zero {
        GapNotZero(wire, gap, k);
        return false;
      }
      forall i: nat | HEADER_SIZE <= i < ends[k] ensures wire[i] == 0 || InTables(wire, i) {
        if i >= tables[k].offset { assert Inside(Table(wire, k), total, i); }
      }
      gap := ends[k];
    }
    ok := ZeroRange(wire, gap, total - gap);
    assert ends[3] == End(Table(wire, 3), total);
  }

  lemma EndsInside(wire: Wire)
    requires HeaderOk(wire) && TablesOk(wire)
    ensures forall k: nat :: k < 4 ==> End(Table(wire, k), |wire|) <= |wire|
    ensures forall k: nat :: k < 4 && Table(wire, k).count > 0 ==>
              HEADER_SIZE <= Table(wire, k).offset <= End(Table(wire, k), |wire|)
  {
    forall k: nat | k < 4
      ensures End(Table(wire, k), |wire|) <= |wire|
      ensures Table(wire, k).count > 0 ==> HEADER_SIZE <= Table(wire, k).offset <= End(Table(wire, k), |wire|)
    {
      hide Word, HeaderOk;
      assert k == 0 || k == 1 || k == 2 || k == 3;
    }
  }

  // A byte that is not zero, past all earlier tables and before the next, breaks the layout.
  lemma GapNotZero(wire: Wire, gap: nat, k: nat)
    requires HeaderOk(wire) && TablesOk(wire) && HEADER_SIZE <= gap <= |wire| && k <= 4
    requires k < 4 ==> Table(wire, k).count > 0
    requires forall j: nat :: j < k ==> End(Table(wire, j), |wire|) <= gap
    requires !Zero(wire, gap, if k < 4 then Table(wire, k).offset else |wire|)
    ensures !GapsOk(wire)
  {
    hide Word, HeaderOk, Table;
    EndsInside(wire);
    var to := if k < 4 then Table(wire, k).offset else |wire|;
    var i :| gap <= i < to && wire[i] != 0;
    forall j: nat | j < 4 ensures !Inside(Table(wire, j), |wire|, i) {
      if k < j { assert Follows(Table(wire, j), Table(wire, k), |wire|); }
    }
    assert !InTables(wire, i);
  }

  // ---------------------------------------------------------------- strings

  // The lookup table finds exactly the records.
  ghost predicate Indexes(refs: map<Record, nat>, records: seq<Record>) {
    forall r :: r in refs <==> r in records
  }

  // One string record, apart from its value being new: nothing, or where its payload lies.
  method ReadRecord(wire: Wire, cursor: nat) returns (record: Option<Record>)
    requires |wire| <= MAX_SERIALIZED_BYTES && cursor <= |wire|
    ensures record.Some? ==> RecordOk(wire, cursor, record.value)
    ensures record.None? ==> forall r :: !RecordOk(wire, cursor, r)
  {
    hide Word;
    var length := ReadWord(wire, cursor, 4);
    var reserved := ReadWord(wire, cursor + 4, 4);
    if length.None? || reserved.None? { return None; }
    if reserved != Some(0) || length == Some(0) || length.value > MAX_STRING_BYTES { return None; }
    var payload := AddU64(cursor, STRING_HEADER_SIZE);
    var end := AddU64(payload.value, length.value);
    var next := Align8U64(end.value);
    if next.value > |wire| || !HasRange(payload.value, length.value, |wire|) { return None; }
    var padded := ZeroRange(wire, end.value, next.value - end.value);
    if !padded { return None; }
    return Some(Record(payload.value, length.value));
  }

  method ReadStrings(wire: Wire, table: Descriptor) returns (result: Option<seq<Record>>, refs: map<Record, nat>)
    requires HEADER_SIZE <= |wire| <= MAX_SERIALIZED_BYTES && table == Strings(wire)
    requires table.count > 0 ==> table.offset <= |wire|
    ensures result.Some? ==> StringsOk(wire, result.value) && Indexes(refs, result.value)
    ensures result.None? ==> forall records :: !StringsOk(wire, records)
  {
    hide Word, Value, RecordOk, RecordsOk, Table;
    // A reading of the table, if there is one: the loop follows it.
    ghost var goal: Option<seq<Record>> := None;
    if records :| StringsOk(wire, records) { goal := Some(records); }
    var records: seq<Record> := [];
    refs := map[];
    NoRecords(wire, table.offset);
    if table.count == 0 { return Some(records), refs; }
    var values: set<string> := {};
    var cursor := table.offset;
    var total := 0;
    for index := 0 to table.count
      invariant |records| == index && RecordsOk(wire, table.offset, records) && Indexes(refs, records)
      invariant cursor == RecordStart(table.offset, records, index) <= |wire| && total == TotalLength(records)
      invariant forall v :: v in values <==> HasValue(wire, records, v)
      invariant goal.Some? ==> records == goal.value[..index]
    {
      if goal.Some? { NextRecord(wire, table.offset, goal.value, index); }
      var record := ReadRecord(wire, cursor);
      if record.None? { return None, refs; }
      RecordPlaced(wire, cursor, record.value);
      if goal.Some? { RecordDetermined(wire, cursor, record.value, goal.value[index]); }
      if record.value.length > MAX_DECODED_STRING_BYTES - total { return None, refs; }
      var value := Value(wire, record.value);
      if value in values { return None, refs; }
      AddRecord(wire, table.offset, records, record.value);
      values := values + {value};
      if record.value !in refs { refs := refs[record.value := index]; }
      records := records + [record.value];
      total := total + record.value.length;
      cursor := RecordEnd(record.value);
    }
    if goal.Some? { assert goal.value[..|records|] == goal.value; }
    if cursor != |wire| { return None, refs; }
    return Some(records), refs;
  }

  ghost predicate HasValue(wire: Wire, records: seq<Record>, v: string) {
    exists i :: 0 <= i < |records| && InWire(wire, records[i]) && Value(wire, records[i]) == v
  }

  predicate InWire(wire: Wire, r: Record) { r.at + r.length <= |wire| }

  lemma NoRecords(wire: Wire, offset: nat)
    ensures RecordsOk(wire, offset, [])
  {
  }

  lemma RecordPlaced(wire: Wire, start: nat, r: Record)
    requires RecordOk(wire, start, r)
    ensures InWire(wire, r) && RecordEnd(r) <= |wire| && 0 < r.length <= MAX_STRING_BYTES && 0 < r.at
  {
    hide Word, Zero;
  }

  // What a reading says about its record number i, and the records before it.
  lemma NextRecord(wire: Wire, offset: nat, goal: seq<Record>, i: nat)
    requires RecordsOk(wire, offset, goal) && i < |goal|
    ensures RecordOk(wire, RecordStart(offset, goal[..i], i), goal[i]) && InWire(wire, goal[i])
    ensures TotalLength(goal[..i]) + goal[i].length <= MAX_DECODED_STRING_BYTES
    ensures !HasValue(wire, goal[..i], Value(wire, goal[i]))
    ensures goal[..i + 1] == goal[..i] + [goal[i]]
  {
    hide RecordOk, Value, RecordEnd, TotalLength;
    assert RecordStart(offset, goal[..i], i) == RecordStart(offset, goal, i);
    RecordPlaced(wire, RecordStart(offset, goal, i), goal[i]);
    NextLength(goal, i);
  }

  lemma NextLength(goal: seq<Record>, i: nat)
    requires i < |goal|
    ensures TotalLength(goal[..i]) + goal[i].length <= TotalLength(goal)
  {
    LengthOfPrefix(goal, i + 1);
    assert goal[..i + 1][..i] == goal[..i];
  }

  lemma {:induction false} LengthOfPrefix(records: seq<Record>, n: nat)
    requires n <= |records|
    ensures TotalLength(records[..n]) <= TotalLength(records)
    decreases |records|
  {
    if n == |records| { assert records[..n] == records; }
    else {
      assert records[..|records| - 1][..n] == records[..n];
      LengthOfPrefix(records[..|records| - 1], n);
    }
  }

  lemma OneMoreValue(wire: Wire, records: seq<Record>, r: Record)
    requires InWire(wire, r)
    ensures forall v :: HasValue(wire, records + [r], v) <==> HasValue(wire, records, v) || v == Value(wire, r)
  {
    hide Value;
    var all := records + [r];
    assert all[..|records|] == records && all[|records|] == r;
    forall v | HasValue(wire, records, v) ensures HasValue(wire, all, v) {
      var i :| 0 <= i < |records| && InWire(wire, records[i]) && Value(wire, records[i]) == v;
      assert all[i] == records[i];
    }
    forall v | HasValue(wire, all, v) ensures HasValue(wire, records, v) || v == Value(wire, r) {
      var i :| 0 <= i < |all| && InWire(wire, all[i]) && Value(wire, all[i]) == v;
      if i < |records| { assert InWire(wire, records[i]) && Value(wire, records[i]) == v; }
    }
  }

  lemma AddRecord(wire: Wire, offset: nat, records: seq<Record>, r: Record)
    requires RecordsOk(wire, offset, records) && RecordOk(wire, RecordStart(offset, records, |records|), r)
    requires InWire(wire, r) && !HasValue(wire, records, Value(wire, r))
    requires TotalLength(records) + r.length <= MAX_DECODED_STRING_BYTES
    ensures RecordsOk(wire, offset, records + [r]) && TotalLength(records + [r]) == TotalLength(records) + r.length
    ensures forall v :: HasValue(wire, records + [r], v) <==> HasValue(wire, records, v) || v == Value(wire, r)
    ensures RecordStart(offset, records + [r], |records| + 1) == RecordEnd(r)
  {
    hide RecordOk, Value, RecordEnd;
    var all := records + [r];
    assert all[..|records|] == records;
    forall i | 0 <= i < |all| ensures RecordOk(wire, RecordStart(offset, all, i), all[i]) && InWire(wire, all[i]) {
      if i < |records| {
        assert RecordOk(wire, RecordStart(offset, records, i), records[i]);
        RecordPlaced(wire, RecordStart(offset, records, i), records[i]);
      }
    }
    assert all[|records|] == r;
    OneMoreValue(wire, records, r);
    forall i, j | 0 <= i < j < |all| ensures Value(wire, all[i]) != Value(wire, all[j]) {
      if j == |records| { assert all[i] == records[i]; }
      else { assert all[i] == records[i] && all[j] == records[j]; }
    }
  }

  // ---------------------------------------------------------------- references

  ghost predicate Placed(wire: Wire, records: seq<Record>) {
    forall r :: r in records ==> InWire(wire, r) && 0 < r.length <= MAX_STRING_BYTES && 0 < r.at
  }

  lemma StringsArePlaced(wire: Wire, records: seq<Record>)
    requires StringsOk(wire, records)
    ensures Placed(wire, records)
  {
    hide RecordOk, Table, Value;
    forall r | r in records ensures InWire(wire, r) && 0 < r.length <= MAX_STRING_BYTES && 0 < r.at {
      var i :| 0 <= i < |records| && records[i] == r;
      RecordPlaced(wire, RecordStart(Strings(wire).offset, records, i), r);
    }
  }

  // Decoder::read_ref, with the lookup table.
  method ReadRef(wire: Wire, at: nat, records: seq<Record>, refs: map<Record, nat>) returns (value: Option<string>)
    requires at <= |wire| <= MAX_SERIALIZED_BYTES && Placed(wire, records) && Indexes(refs, records)
    ensures value == if at + 16 <= |wire| then Reference(wire, at, records) else None
  {
    hide Word;
    var next := AddU64(at, 8);
    var offset := ReadWord(wire, at, 8);
    if offset.None? { return None; }
    var length := ReadWord(wire, next.value, 8);
    if length.None? { return None; }
    if offset.value == 0 && length.value == 0 { return Some([]); }
    if offset.value == 0 || length.value == 0 || length.value > MAX_STRING_BYTES { return None; }
    var key := Record(offset.value, length.value);
    if key !in refs { return None; }
    return Some(Value(wire, key));
  }

  // Decoder::read_ref of src/compat/rust_profile_parser.cpp, which looks through the
  // records one by one: on the same records it gives the same answer.
  method ReadRefByScan(wire: Wire, at: nat, records: seq<Record>) returns (value: Option<string>)
    requires at <= |wire| <= MAX_SERIALIZED_BYTES && Placed(wire, records)
    ensures value == if at + 16 <= |wire| then Reference(wire, at, records) else None
  {
    hide Word;
    var offset := ReadWord(wire, at, 8);
    if offset.None? { return None; }
    var length := ReadWord(wire, at + 8, 8);
    if length.None? { return None; }
    if offset.value == 0 && length.value == 0 { return Some([]); }
    if offset.value == 0 || length.value == 0 { return None; }
    for i := 0 to |records|
      invariant Record(offset.value, length.value) !in records[..i]
    {
      if records[i].at == offset.value && records[i].length == length.value {
        assert records[i] == Record(offset.value, length.value);
        return Some(Value(wire, records[i]));
      }
    }
    assert records[..|records|] == records;
    return None;
  }

  // ---------------------------------------------------------------- fixed records

  // Decoder::fixed_record: where record index of a table starts.
  method FixedRecord(wire: Wire, d: Descriptor, index: nat) returns (at: nat)
    requires |wire| <= MAX_SERIALIZED_BYTES && d.stride > 0 && index < d.count
    requires d.offset + d.count * d.stride <= |wire|
    ensures at == d.offset + index * d.stride && at + d.stride <= |wire|
  {
    Multiply(d.stride, index + 1, d.count);
    assert (index + 1) * d.stride == index * d.stride + d.stride;
    var relative := MultiplyU64(index, d.stride);
    var sum := AddU64(d.offset, relative.value);
    return sum.value;
  }

  method CheckInfo(wire: Wire, appCount: nat, argCount: nat) returns (ok: bool)
    requires HEADER_SIZE + INFO_STRIDE <= |wire| && appCount == Apps(wire).count && argCount == Args(wire).count
    ensures ok <==> InfoOk(wire)
  {
    hide Word, Table, Zero;
    var version := ReadWord(wire, HEADER_SIZE, 4);
    var flags := ReadWord(wire, HEADER_SIZE + 4, 4);
    var apps := ReadWord(wire, HEADER_SIZE + 8, 8);
    var args := ReadWord(wire, HEADER_SIZE + 16, 8);
    var reserved := ZeroRange(wire, HEADER_SIZE + 24, 8);
    if !reserved { return false; }
    return version == Some(1) && flags == Some(0) && apps == Some(appCount) && args == Some(argCount);
  }

  method ReadArgs(wire: Wire, table: Descriptor, records: seq<Record>, refs: map<Record, nat>)
    returns (args: Option<seq<string>>)
    requires HEADER_SIZE <= |wire| <= MAX_SERIALIZED_BYTES && Placed(wire, records) && Indexes(refs, records)
    requires table == Args(wire) && table.stride == ARG_STRIDE
    requires table.count > 0 ==> table.offset + table.count * table.stride <= |wire|
    ensures args.Some? ==> ArgsOk(wire, records, args.value)
    ensures args.None? ==> forall x :: !ArgsOk(wire, records, x)
  {
    hide Word, Table, Reference, Placed, Indexes;
    var decoded: seq<string> := [];
    for index := 0 to table.count
      invariant |decoded| == index
      invariant forall i: nat :: i < index ==> RefersTo(wire, table.offset + i * ARG_STRIDE, records, decoded[i])
    {
      var at := FixedRecord(wire, table, index);
      var value := ReadRef(wire, at, records, refs);
      if value.None? {
        forall x ensures !ArgsOk(wire, records, x) {
          if ArgsOk(wire, records, x) { ArgsRefer(wire, records, x, index); }
        }
        return None;
      }
      decoded := decoded + [value.value];
    }
    return Some(decoded);
  }

  lemma ArgsRefer(wire: Wire, records: seq<Record>, args: seq<string>, i: nat)
    requires ArgsOk(wire, records, args) && i < |args|
    ensures RefersTo(wire, Args(wire).offset + i * ARG_STRIDE, records, args[i])
  {
  }

  // ---------------------------------------------------------------- applications

  lemma FieldRefers(wire: Wire, at: nat, records: seq<Record>, fields: seq<string>, k: nat)
    requires FieldsOk(wire, at, records, fields) && k < |fields|
    ensures RefersTo(wire, at + k * 16, records, fields[k])
  {
  }

  method ReadFields(wire: Wire, at: nat, records: seq<Record>, refs: map<Record, nat>)
    returns (fields: Option<seq<string>>)
    requires at + APP_STRIDE <= |wire| <= MAX_SERIALIZED_BYTES && Placed(wire, records) && Indexes(refs, records)
    ensures fields.Some? ==> |fields.value| == 9 && FieldsOk(wire, at, records, fields.value)
    ensures fields.None? ==> forall app: AppEntry :: !FieldsOk(wire, at, records, Fields(app))
  {
    hide Word, Reference, Placed, Indexes, Fields;
    var decoded: seq<string> := [];
    for k := 0 to 9
      invariant |decoded| == k && FieldsOk(wire, at, records, decoded)
    {
      var value := ReadRef(wire, at + k * 16, records, refs);
      if value.None? {
        forall app: AppEntry ensures !FieldsOk(wire, at, records, Fields(app)) {
          if FieldsOk(wire, at, records, Fields(app)) { FieldRefers(wire, at, records, Fields(app), k); }
        }
        return None;
      }
      decoded := decoded + [value.value];
    }
    return Some(decoded);
  }

  // The application a record stands for, given where its arguments must start.
  ghost predicate AppReads(wire: Wire, at: nat, records: seq<Record>, args: seq<string>, first: nat, app: AppEntry) {
    AppOk(wire, at, records, app, first) && first + |app.args| <= |args| && app.args == args[first..first + |app.args|]
  }

  method ReadApp(wire: Wire, at: nat, records: seq<Record>, refs: map<Record, nat>, args: seq<string>, first: nat)
    returns (app: Option<AppEntry>)
    requires at + APP_STRIDE <= |wire| <= MAX_SERIALIZED_BYTES && Placed(wire, records) && Indexes(refs, records)
    requires first <= |args|
    ensures app.Some? ==> AppReads(wire, at, records, args, first, app.value)
    ensures app.None? ==> forall a :: !AppReads(wire, at, records, args, first, a)
  {
    hide Word, FieldsOk, Placed, Indexes, IsSafeAppId, Zero;
    var fields := ReadFields(wire, at, records, refs);
    if fields.None? { return None; }
    var f := fields.value;
    var index := ReadWord(wire, at + ARGS_INDEX_OFFSET, 8);
    var count := ReadWord(wire, at + ARGS_COUNT_OFFSET, 8);
    var cpu := ReadWord(wire, at + CPU_LIMIT_OFFSET, 8);
    var memory := ReadWord(wire, at + MEMORY_LIMIT_OFFSET, 8);
    var reserved := ZeroRange(wire, at + RESERVED_OFFSET, 16);
    if !reserved { return None; }
    if !IsSafeAppId(f[0]) || f[2] == [] {
      forall a ensures !AppReads(wire, at, records, args, first, a) {
        if AppOk(wire, at, records, a, first) { FieldsDetermined(wire, at, records, Fields(a), f); }
      }
      return None;
    }
    if count.value == 0 {
      if index.value != 0 { return None; }
    } else if index.value != first || index.value > |args| || count.value > |args| - index.value {
      return None;
    }
    var entry := AppEntry(f[0], f[1], f[2], f[3], f[4], f[5], f[6], f[7], f[8],
                          args[index.value..index.value + count.value], cpu.value, memory.value);
    assert Fields(entry) == f;
    if count.value == 0 { assert args[first..first] == []; }
    return Some(entry);
  }

  method ReadApps(wire: Wire, table: Descriptor, records: seq<Record>, refs: map<Record, nat>, args: seq<string>)
    returns (result: Option<seq<AppEntry>>)
    requires HEADER_SIZE <= |wire| <= MAX_SERIALIZED_BYTES && Placed(wire, records) && Indexes(refs, records)
    requires table == Apps(wire) && table.stride == APP_STRIDE
    requires table.count > 0 ==> table.offset + table.count * table.stride <= |wire|
    ensures result.Some? ==> AppsOk(wire, records, result.value) && AllArgs(result.value) == args
    ensures result.None? ==> forall apps :: !(AppsOk(wire, records, apps) && AllArgs(apps) == args)
  {
    hide Word, AppOk, Placed, Indexes, Table, AllArgs, AppReads;
    ghost var goal: Option<seq<AppEntry>> := None;
    if apps :| AppsOk(wire, records, apps) && AllArgs(apps) == args { goal := Some(apps); }
    var apps: seq<AppEntry> := [];
    var ids: set<string> := {};
    var first := 0;
    NoApps();
    for index := 0 to table.count
      invariant |apps| == index && first == |AllArgs(apps)| <= |args| && AllArgs(apps) == args[..first]
      invariant AppsSoFar(wire, table.offset, records, apps)
      invariant forall id :: id in ids <==> HasId(apps, id)
      invariant goal.Some? ==> apps == goal.value[..index]
    {
      var at := FixedRecord(wire, table, index);
      if goal.Some? { NextApp(wire, at, records, goal.value, index); }
      var entry := ReadApp(wire, at, records, refs, args, first);
      if entry.None? { return None; }
      if goal.Some? { AppReadsOnce(wire, at, records, args, first, entry.value, goal.value[index]); }
      if entry.value.id in ids { return None; }
      AddApp(wire, table.offset, records, apps, args, entry.value);
      ids := ids + {entry.value.id};
      first := first + |entry.value.args|;
      apps := apps + [entry.value];
    }
    if goal.Some? { assert goal.value[..|apps|] == goal.value; }
    if first != |args| { return None; }
    assert args[..first] == args;
    return Some(apps);
  }

  ghost predicate HasId(apps: seq<AppEntry>, id: string) { exists i :: 0 <= i < |apps| && apps[i].id == id }

  ghost predicate AppsSoFar(wire: Wire, offset: nat, records: seq<Record>, apps: seq<AppEntry>) {
    && DistinctIds(apps)
    && forall i: nat :: i < |apps| ==>
         AppOk(wire, offset + i * APP_STRIDE, records, apps[i], |AllArgs(apps[..i])|)
  }

  lemma NoApps()
    ensures AllArgs([]) == []
  {
  }

  lemma NextApp(wire: Wire, at: nat, records: seq<Record>, goal: seq<AppEntry>, i: nat)
    requires AppsOk(wire, records, goal) && i < |goal| && at == Apps(wire).offset + i * APP_STRIDE
    ensures AppReads(wire, at, records, AllArgs(goal), |AllArgs(goal[..i])|, goal[i])
    ensures !HasId(goal[..i], goal[i].id) && goal[..i + 1] == goal[..i] + [goal[i]]
  {
    hide AppOk, Table, AllArgs;
    AllArgsPrefix(goal, i);
    AllArgsPrefix(goal, i + 1);
    var first, n := |AllArgs(goal[..i])|, |goal[i].args|;
    assert AllArgs(goal[..i + 1]) == AllArgs(goal)[..first + n];
    forall j: nat | j < n ensures goal[i].args[j] == AllArgs(goal)[first..first + n][j] { ArgAt(goal, i, j); }
    assert goal[i].args == AllArgs(goal)[first..first + n];
  }

  lemma AppReadsOnce(wire: Wire, at: nat, records: seq<Record>, args: seq<string>, first: nat, a: AppEntry, b: AppEntry)
    requires AppReads(wire, at, records, args, first, a) && AppReads(wire, at, records, args, first, b)
    ensures a == b
  {
    hide Word, FieldsOk, Zero, IsSafeAppId;
    AppDetermined(wire, at, records, a, b, first, first);
  }

  lemma AddApp(wire: Wire, offset: nat, records: seq<Record>, apps: seq<AppEntry>, args: seq<string>, app: AppEntry)
    requires AppsSoFar(wire, offset, records, apps) && !HasId(apps, app.id)
    requires |AllArgs(apps)| <= |args| && AllArgs(apps) == args[..|AllArgs(apps)|]
    requires AppReads(wire, offset + |apps| * APP_STRIDE, records, args, |AllArgs(apps)|, app)
    ensures AppsSoFar(wire, offset, records, apps + [app])
    ensures AllArgs(apps + [app]) == AllArgs(apps) + app.args && |AllArgs(apps + [app])| <= |args|
    ensures AllArgs(apps + [app]) == args[..|AllArgs(apps + [app])|]
    ensures forall id :: HasId(apps + [app], id) <==> HasId(apps, id) || id == app.id
  {
    hide AppOk, AllArgs;
    var all := apps + [app];
    assert all[..|apps|] == apps;
    AllArgsPrefix(all, |apps|);
    assert all[..|all|] == all;
    AddArgs(args, |AllArgs(apps)|, app.args);
    forall i: nat | i < |all| ensures AppOk(wire, offset + i * APP_STRIDE, records, all[i], |AllArgs(all[..i])|) {
      if i < |apps| { assert all[..i] == apps[..i] && all[i] == apps[i]; }
    }
    AddId(apps, app);
  }

  lemma AddArgs(args: seq<string>, first: nat, more: seq<string>)
    requires first + |more| <= |args| && more == args[first..first + |more|]
    ensures args[..first] + more == args[..first + |more|]
  {
  }

  lemma AddId(apps: seq<AppEntry>, app: AppEntry)
    requires DistinctIds(apps) && !HasId(apps, app.id)
    ensures DistinctIds(apps + [app])
    ensures forall id :: HasId(apps + [app], id) <==> HasId(apps, id) || id == app.id
  {
    var all := apps + [app];
    assert all[|apps|] == app;
    forall id | HasId(apps, id) ensures HasId(all, id) {
      var i :| 0 <= i < |apps| && apps[i].id == id;
      assert all[i] == apps[i];
    }
    forall i, j | 0 <= i < j < |all| ensures all[i].id != all[j].id {
      if j == |apps| { assert all[i] == apps[i]; }
    }
  }

  // ---------------------------------------------------------------- the whole decoder

  // decode_tlac_v1. It succeeds exactly on the buffers that represent some catalog, with
  // that catalog; on failure it gives nothing, so the caller keeps its applications.
  method Decode(wire: Wire) returns (result: Option<seq<AppEntry>>)
    ensures result.Some? ==> Represents(wire, result.value)
    ensures result.None? ==> forall apps :: !Represents(wire, apps)
  {
    hide HeaderOk, TablesOk, GapsOk, StringsOk, InfoOk, ArgsOk, AppsOk, Table, AllArgs;
    var header := CheckHeader(wire);
    if !header { return None; }
    HeaderSizes(wire);
    var ordered, tables, ends, lastEnd := CheckTables(wire);
    if !ordered { return None; }
    var gaps := CheckGaps(wire, tables, ends, lastEnd);
    if !gaps { return None; }
    TableShapes(wire);
    var records, refs := ReadStrings(wire, tables[3]);
    if records.None? { return None; }
    StringsArePlaced(wire, records.value);
    var info := CheckInfo(wire, tables[1].count, tables[2].count);
    if !info { return None; }
    var args := ReadArgs(wire, tables[2], records.value, refs);
    if args.None? {
      OnlyTheseStrings(wire, records.value);
      return None;
    }
    var apps := ReadApps(wire, tables[1], records.value, refs, args.value);
    if apps.None? {
      OnlyTheseStrings(wire, records.value);
      forall r, a | Layout(wire, r, a) ensures false {
        ArgsUnique(wire, records.value, args.value, AllArgs(a));
      }
      return None;
    }
    assert Layout(wire, records.value, apps.value);
    return apps;
  }

  lemma OnlyTheseStrings(wire: Wire, records: seq<Record>)
    requires StringsOk(wire, records)
    ensures forall r, a :: Layout(wire, r, a) ==> r == records
  {
    forall r, a | Layout(wire, r, a) ensures r == records { StringsUnique(wire, r, records); }
  }

  lemma TableShapes(wire: Wire)
    requires HeaderOk(wire) && TablesOk(wire)
    ensures HEADER_SIZE + INFO_STRIDE <= |wire|
    ensures forall k: nat :: k < 3 ==> TableIn(Table(wire, k), |wire|)
    ensures Apps(wire).stride == APP_STRIDE && Args(wire).stride == ARG_STRIDE
    ensures Strings(wire).count > 0 ==> Strings(wire).offset <= |wire|
  {
    hide Word, HeaderOk;
  }

  predicate TableIn(d: Descriptor, total: nat) { d.count > 0 ==> d.offset + d.count * d.stride <= total }

  // Failing to decode and decoding to different lists exclude each other.
  lemma RepresentsOnce(wire: Wire, a: seq<AppEntry>, b: seq<AppEntry>)
    requires Represents(wire, a) && Represents(wire, b)
    ensures a == b
  {
    var r :| Layout(wire, r, a);
    var s :| Layout(wire, s, b);
    LayoutIsUnique(wire, r, a, s, b);
  }
}
