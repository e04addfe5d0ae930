// The layout the serializer of src/rust/catalog_parser.rs gives to TLAC version 1: every
// catalog within the limits has a representation, which the decoder then reads back.
module TlacEncoder {
  import opened LittleEndian
  import opened Catalog
  import opened Tlac
  import D = TlacDecoder

  // ---------------------------------------------------------------- pieces of a buffer

  ghost predicate HasAt(wire: Wire, at: nat, part: seq<byte>) {
    at + |part| <= |wire| && wire[at..at + |part|] == part
  }

  lemma HasMiddle(a: seq<byte>, part: seq<byte>, b: seq<byte>)
    ensures HasAt(a + part + b, |a|, part)
  {
  }

  lemma HasSplit(wire: Wire, at: nat, a: seq<byte>, b: seq<byte>)
    requires HasAt(wire, at, a + b)
    ensures HasAt(wire, at, a) && HasAt(wire, at + |a|, b)
  {
    assert (a + b)[..|a|] == a && (a + b)[|a|..] == b;
    assert wire[at..at + |a + b|][..|a|] == wire[at..at + |a|];
    assert wire[at..at + |a + b|][|a|..] == wire[at + |a|..at + |a| + |b|];
  }

  lemma HasInner(wire: Wire, at: nat, part: seq<byte>, from: nat, inner: seq<byte>)
    requires HasAt(wire, at, part) && HasAt(part, from, inner)
    ensures HasAt(wire, at + from, inner)
  {
    forall k | 0 <= k < |inner| ensures wire[at + from + k] == inner[k] {
      assert wire[at + from + k] == wire[at..at + |part|][from + k];
      assert part[from + k] == part[from..from + |inner|][k];
    }
  }

  lemma HasWord(wire: Wire, at: nat, value: nat, n: nat)
    requires HasAt(wire, at, Encode(value, n)) && value < Pow256(n)
    ensures Word(wire, at, n) == value
  {
    EncodeThenRead(value, n);
    WordFrame(wire, Encode(value, n), at, 0, n);
  }

  lemma HasZeros(wire: Wire, at: nat, n: nat)
    requires HasAt(wire, at, Zeros(n))
    ensures Zero(wire, at, at + n)
  {
    forall i | at <= i < at + n ensures wire[i] == 0 { assert wire[i] == wire[at..at + n][i - at]; }
  }

  function Zeros(n: nat): (z: seq<byte>)
    ensures |z| == n
  {
    seq(n, _ => 0)
  }

  function Concat(parts: seq<seq<byte>>): seq<byte> {
    if parts == [] then [] else Concat(parts[..|parts| - 1]) + parts[|parts| - 1]
  }

  lemma {:induction false} ConcatHas(parts: seq<seq<byte>>, i: nat)
    requires i < |parts|
    ensures HasAt(Concat(parts), |Concat(parts[..i])|, parts[i])
    decreases |parts|
  {
    var init, last := parts[..|parts| - 1], parts[|parts| - 1];
    if i == |parts| - 1 { HasMiddle(Concat(init), last, []); assert Concat(init) + last + [] == Concat(parts); }
    else {
      ConcatHas(init, i);
      assert init[..i] == parts[..i];
      HasMiddle([], Concat(init), last);
      assert [] + Concat(init) + last == Concat(parts);
      HasInner(Concat(parts), 0, Concat(init), |Concat(parts[..i])|, parts[i]);
    }
  }

  lemma {:induction false} ConcatLength(parts: seq<seq<byte>>, size: nat)
    requires forall i :: 0 <= i < |parts| ==> |parts[i]| == size
    ensures |Concat(parts)| == |parts| * size
  {
    if parts != [] {
      ConcatLength(parts[..|parts| - 1], size);
      assert |parts| * size == (|parts| - 1) * size + size;
    }
  }

  // ---------------------------------------------------------------- strings

  // Strings of bytes.
  predicate IsNarrow(s: string) { forall i :: 0 <= i < |s| ==> s[i] as int < 256 }

  function Bytes(s: string): (b: seq<byte>)
    requires IsNarrow(s)
    ensures |b| == |s|
  {
    seq(|s|, i requires 0 <= i < |s| => s[i] as int)
  }

  lemma TextOfBytes(s: string)
    requires IsNarrow(s)
    ensures Text(Bytes(s)) == s
  {
  }

  // StringTable::intern over a list of values: each one that is not empty, once.
  function Pool(values: seq<string>): seq<string> {
    if values == [] then []
    else
      var before, last := Pool(values[..|values| - 1]), values[|values| - 1];
      if last == [] || last in before then before else before + [last]
  }

  lemma {:induction false} PoolFacts(values: seq<string>)
    ensures forall v :: v in Pool(values) <==> v in values && v != []
    ensures forall i, j :: 0 <= i < j < |Pool(values)| ==> Pool(values)[i] != Pool(values)[j]
  {
    if values != [] {
      PoolFacts(values[..|values| - 1]);
      assert values == values[..|values| - 1] + [values[|values| - 1]];
    }
  }

  function AllFields(apps: seq<AppEntry>): seq<string> {
    if apps == [] then [] else AllFields(apps[..|apps| - 1]) + Fields(apps[|apps| - 1])
  }

  lemma {:induction false} AllFieldsHave(apps: seq<AppEntry>, i: nat)
    requires i < |apps|
    ensures forall v :: v in Fields(apps[i]) ==> v in AllFields(apps)
    decreases |apps|
  {
    hide Fields;
    if i < |apps| - 1 { AllFieldsHave(apps[..|apps| - 1], i); }
  }

  function StringPool(apps: seq<AppEntry>): seq<string> { Pool(AllFields(apps) + AllArgs(apps)) }

  predicate AllNarrow(pool: seq<string>) { forall i :: 0 <= i < |pool| ==> IsNarrow(pool[i]) }

  // One record of the string table.
  function RecordBytes(s: string): (b: seq<byte>)
    requires IsNarrow(s)
    ensures |b| == 8 + Align8(|s|)
  {
    Encode(|s|, 4) + (Encode(0, 4) + (Bytes(s) + Zeros(Align8(|s|) - |s|)))
  }

  function RecordParts(pool: seq<string>): (parts: seq<seq<byte>>)
    requires AllNarrow(pool)
    ensures |parts| == |pool| && forall i :: 0 <= i < |pool| ==> parts[i] == RecordBytes(pool[i])
  {
    seq(|pool|, i requires 0 <= i < |pool| => RecordBytes(pool[i]))
  }

  // Where the payloads of the pool lie.
  function Records(offset: nat, pool: seq<string>): (records: seq<Record>)
    ensures |records| == |pool|
  {
    if pool == [] then []
    else
      var before := Records(offset, pool[..|pool| - 1]);
      before + [Record(RecordStart(offset, before, |before|) + STRING_HEADER_SIZE, |pool[|pool| - 1]|)]
  }

  lemma {:induction false} RecordsPrefix(offset: nat, pool: seq<string>, n: nat)
    requires n <= |pool|
    ensures Records(offset, pool[..n]) == Records(offset, pool)[..n]
    decreases |pool|
  {
    if n == |pool| { assert pool[..n] == pool; }
    else {
      RecordsPrefix(offset, pool[..|pool| - 1], n);
      assert pool[..|pool| - 1][..n] == pool[..n];
    }
  }

  lemma AlignedSum(a: nat, n: nat)
    requires a % 8 == 0
    ensures Align8(a + n) == a + Align8(n)
  {
  }

  // The records start where the bytes before them end.
  lemma {:induction false} StartIsLength(offset: nat, pool: seq<string>)
    requires AllNarrow(pool) && offset % 8 == 0
    ensures RecordStart(offset, Records(offset, pool), |pool|) == offset + |Concat(RecordParts(pool))|
    ensures |Concat(RecordParts(pool))| % 8 == 0
  {
    hide RecordBytes, Align8;
    if pool != [] {
      var init, last := pool[..|pool| - 1], pool[|pool| - 1];
      StartIsLength(offset, init);
      assert RecordParts(pool)[..|pool| - 1] == RecordParts(init);
      var before := |Concat(RecordParts(init))|;
      assert |Concat(RecordParts(pool))| == before + 8 + Align8(|last|);
      AlignedNext(offset, before, |last|);
    }
  }

  lemma AlignedNext(offset: nat, before: nat, n: nat)
    requires offset % 8 == 0 && before % 8 == 0
    ensures Align8(offset + before + 8 + n) == offset + before + 8 + Align8(n)
    ensures (before + 8 + Align8(n)) % 8 == 0
  {
    AlignedSum(offset + before + 8, n);
    AlignedSum(before + 8, n);
  }

  // A record that is there is read as one, and its value is the string.
  lemma RecordReads(wire: Wire, start: nat, s: string)
    requires IsNarrow(s) && 0 < |s| <= MAX_STRING_BYTES && start % 8 == 0 && HasAt(wire, start, RecordBytes(s))
    ensures var r := Record(start + 8, |s|);
      RecordOk(wire, start, r) && r.at + r.length <= |wire| && Value(wire, r) == s
  {
    hide Word, Encode;
    var n := |s|;
    HasSplit(wire, start, Encode(n, 4), Encode(0, 4) + (Bytes(s) + Zeros(Align8(n) - n)));
    HasSplit(wire, start + 4, Encode(0, 4), Bytes(s) + Zeros(Align8(n) - n));
    HasSplit(wire, start + 8, Bytes(s), Zeros(Align8(n) - n));
    Pow256Values();
    HasWord(wire, start, n, 4);
    HasWord(wire, start + 4, 0, 4);
    HasZeros(wire, start + 8 + n, Align8(n) - n);
    AlignedSum(start + 8, n);
    TextOfBytes(s);
  }

  function PoolBytes(pool: seq<string>): nat {
    if pool == [] then 0 else PoolBytes(pool[..|pool| - 1]) + |pool[|pool| - 1]|
  }

  lemma {:induction false} LengthIsPoolBytes(offset: nat, pool: seq<string>)
    ensures TotalLength(Records(offset, pool)) == PoolBytes(pool)
  {
    if pool != [] {
      LengthIsPoolBytes(offset, pool[..|pool| - 1]);
      var r := Records(offset, pool);
      assert r[..|r| - 1] == Records(offset, pool[..|pool| - 1]);
    }
  }

  predicate PoolFits(pool: seq<string>) {
    && AllNarrow(pool) && PoolBytes(pool) <= MAX_DECODED_STRING_BYTES
    && (forall i :: 0 <= i < |pool| ==> 0 < |pool[i]| <= MAX_STRING_BYTES)
    && (forall i, j :: 0 <= i < j < |pool| ==> pool[i] != pool[j])
  }

  // The string table reads as the records of the pool.
  lemma StringsRead(wire: Wire, offset: nat, pool: seq<string>)
    requires PoolFits(pool) && offset % 8 == 0 && HasAt(wire, offset, Concat(RecordParts(pool)))
    ensures RecordsOk(wire, offset, Records(offset, pool))
    ensures forall i :: 0 <= i < |pool| ==> RecordReadsAs(wire, Records(offset, pool)[i], pool[i])
  {
    hide RecordOk, Value, RecordBytes, PoolFits, RecordReadsAs, Records, RecordStart, Concat, HasAt, TotalLength;
    var records := Records(offset, pool);
    forall i | 0 <= i < |pool|
      ensures RecordOk(wire, RecordStart(offset, records, i), records[i]) && RecordReadsAs(wire, records[i], pool[i])
    {
      OneRecord(wire, offset, pool, i);
    }
    LengthIsPoolBytes(offset, pool);
    PoolIsSmall(pool);
    ValuesDiffer(wire, records, pool);
  }

  lemma PoolIsSmall(pool: seq<string>)
    requires PoolFits(pool)
    ensures PoolBytes(pool) <= MAX_DECODED_STRING_BYTES
  {
  }

  lemma ValuesDiffer(wire: Wire, records: seq<Record>, pool: seq<string>)
    requires PoolFits(pool) && |records| == |pool|
    requires forall i :: 0 <= i < |pool| ==> RecordReadsAs(wire, records[i], pool[i])
    ensures forall i :: 0 <= i < |records| ==> records[i].at + records[i].length <= |wire|
    ensures forall i, j :: 0 <= i < j < |records| ==> Value(wire, records[i]) != Value(wire, records[j])
  {
    hide Value;
    forall i, j | 0 <= i < j < |records|
      ensures RecordReadsAs(wire, records[i], pool[i]) && RecordReadsAs(wire, records[j], pool[j]) && pool[i] != pool[j]
    {
    }
  }

  ghost predicate RecordReadsAs(wire: Wire, r: Record, s: string) {
    0 < r.at && r.at + r.length <= |wire| && Value(wire, r) == s
  }

  lemma OneRecord(wire: Wire, offset: nat, pool: seq<string>, i: nat)
    requires PoolFits(pool) && offset % 8 == 0 && HasAt(wire, offset, Concat(RecordParts(pool))) && i < |pool|
    ensures var r := Records(offset, pool);
      RecordOk(wire, RecordStart(offset, r, i), r[i]) && RecordReadsAs(wire, r[i], pool[i])
  {
    hide RecordOk, RecordBytes, Concat, HasAt, RecordStart, Records, RecordReadsAs, RecordParts;
    var start := RecordIsAt(wire, offset, pool, i);
    StartIsLength(offset, pool[..i]);
    RecordAt(offset, pool, i);
    ReadsAsRecord(wire, start, pool[i]);
  }

  // Where the bytes of a record are.
  lemma RecordIsAt(wire: Wire, offset: nat, pool: seq<string>, i: nat) returns (start: nat)
    requires AllNarrow(pool) && HasAt(wire, offset, Concat(RecordParts(pool))) && i < |pool|
    ensures start == offset + |Concat(RecordParts(pool[..i]))| && HasAt(wire, start, RecordBytes(pool[i]))
  {
    hide RecordBytes, Concat, HasAt;
    var parts := RecordParts(pool);
    ConcatHas(parts, i);
    assert parts[..i] == RecordParts(pool[..i]);
    HasInner(wire, offset, Concat(parts), |Concat(parts[..i])|, parts[i]);
    start := offset + |Concat(parts[..i])|;
  }

  lemma ReadsAsRecord(wire: Wire, start: nat, s: string)
    requires IsNarrow(s) && 0 < |s| <= MAX_STRING_BYTES && start % 8 == 0 && HasAt(wire, start, RecordBytes(s))
    ensures RecordOk(wire, start, Record(start + 8, |s|)) && RecordReadsAs(wire, Record(start + 8, |s|), s)
  {
    hide RecordOk, RecordBytes, HasAt;
    RecordReads(wire, start, s);
  }

  lemma RecordAt(offset: nat, pool: seq<string>, i: nat)
    requires i < |pool|
    ensures var r := Records(offset, pool); var start := RecordStart(offset, Records(offset, pool[..i]), i);
      RecordStart(offset, r, i) == start && r[i] == Record(start + 8, |pool[i]|)
  {
    RecordsPrefix(offset, pool, i);
    RecordsPrefix(offset, pool, i + 1);
    assert pool[..i + 1][..i] == pool[..i];
    assert Records(offset, pool)[i] == Records(offset, pool[..i + 1])[i];
    RecordStartPrefix(offset, Records(offset, pool), i);
  }

  lemma RecordStartPrefix(offset: nat, records: seq<Record>, i: nat)
    requires i <= |records|
    ensures RecordStart(offset, records, i) == RecordStart(offset, records[..i], i)
  {
  }

  // ---------------------------------------------------------------- references

  function PlaceOf(pool: seq<string>, s: string): (i: nat)
    ensures s in pool ==> i < |pool| && pool[i] == s
  {
    if pool == [] then 0 else if pool[0] == s then 0 else 1 + PlaceOf(pool[1..], s)
  }

  // The reference to a string of the pool; the empty string has none.
  function ReferenceTo(offset: nat, pool: seq<string>, s: string): Record {
    if s == [] || PlaceOf(pool, s) >= |pool| then Record(0, 0) else Records(offset, pool)[PlaceOf(pool, s)]
  }

  function ReferenceBytes(r: Record): (b: seq<byte>)
    ensures |b| == 16
  {
    Encode(r.at, 8) + Encode(r.length, 8)
  }

  // References fit: records lie inside the buffer.
  lemma ReferenceReads(wire: Wire, at: nat, offset: nat, pool: seq<string>, s: string)
    requires |wire| <= MAX_SERIALIZED_BYTES && (s == [] || s in pool)
    requires HasAt(wire, at, ReferenceBytes(ReferenceTo(offset, pool, s)))
    requires forall i :: 0 <= i < |pool| ==> RecordReadsAs(wire, Records(offset, pool)[i], pool[i])
    ensures RefersTo(wire, at, Records(offset, pool), s)
  {
    hide Word, Encode, Records, Value, HasAt;
    var r := ReferenceTo(offset, pool, s);
    HasInside(wire, at, ReferenceBytes(r));
    HasSplit(wire, at, Encode(r.at, 8), Encode(r.length, 8));
    Pow256Values();
    if s != [] { assert RecordReadsAs(wire, Records(offset, pool)[PlaceOf(pool, s)], s); }
    HasWord(wire, at, r.at, 8);
    HasWord(wire, at + 8, r.length, 8);
  }

  lemma HasInside(wire: Wire, at: nat, part: seq<byte>)
    requires HasAt(wire, at, part)
    ensures at + |part| <= |wire|
  {
  }

  function ReferenceParts(offset: nat, pool: seq<string>, values: seq<string>): (parts: seq<seq<byte>>)
    ensures |parts| == |values|
    ensures forall i :: 0 <= i < |parts| ==>
              parts[i] == ReferenceBytes(ReferenceTo(offset, pool, values[i])) && |parts[i]| == 16
  {
    seq(|values|, i requires 0 <= i < |values| => ReferenceBytes(ReferenceTo(offset, pool, values[i])))
  }

  lemma PartAt(wire: Wire, at: nat, parts: seq<seq<byte>>, size: nat, i: nat)
    requires HasAt(wire, at, Concat(parts)) && i < |parts| && forall j :: 0 <= j < |parts| ==> |parts[j]| == size
    ensures HasAt(wire, at + i * size, parts[i])
  {
    hide HasAt, Concat;
    ConcatHas(parts, i);
    ConcatLength(parts[..i], size);
    HasInner(wire, at, Concat(parts), i * size, parts[i]);
  }

  // A row of references reads as the values it was made for.
  lemma ReferencesRead(wire: Wire, at: nat, offset: nat, pool: seq<string>, values: seq<string>)
    requires |wire| <= MAX_SERIALIZED_BYTES && forall i :: 0 <= i < |values| ==> values[i] == [] || values[i] in pool
    requires HasAt(wire, at, Concat(ReferenceParts(offset, pool, values)))
    requires forall i :: 0 <= i < |pool| ==> RecordReadsAs(wire, Records(offset, pool)[i], pool[i])
    ensures FieldsOk(wire, at, Records(offset, pool), values)
  {
    hide HasAt, Concat, RefersTo, Records, ReferenceTo, ReferenceBytes;
    forall i: nat | i < |values| ensures RefersTo(wire, at + i * 16, Records(offset, pool), values[i]) {
      PartAt(wire, at, ReferenceParts(offset, pool, values), 16, i);
      ReferenceReads(wire, at + i * 16, offset, pool, values[i]);
    }
  }

  // ---------------------------------------------------------------- applications

  predicate AppFits(app: AppEntry) {
    IsSafeAppId(app.id) && app.executablePath != [] && app.cpuLimitSeconds <= MAX_U64 && app.memoryLimitMib <= MAX_U64
  }

  function AppBytes(offset: nat, pool: seq<string>, app: AppEntry, first: nat): (b: seq<byte>)
    ensures |b| == APP_STRIDE
  {
    ConcatLength(ReferenceParts(offset, pool, Fields(app)), 16);
    Concat(ReferenceParts(offset, pool, Fields(app)))
    + (Encode(if app.args == [] then 0 else first, 8)
       + (Encode(|app.args|, 8) + (Encode(app.cpuLimitSeconds, 8) + (Encode(app.memoryLimitMib, 8) + Zeros(16)))))
  }

  lemma AppReads(wire: Wire, at: nat, offset: nat, pool: seq<string>, app: AppEntry, first: nat)
    requires |wire| <= MAX_SERIALIZED_BYTES && AppFits(app) && first <= MAX_U64 && |app.args| <= MAX_U64
    requires forall i :: 0 <= i < 9 ==> Fields(app)[i] == [] || Fields(app)[i] in pool
    requires HasAt(wire, at, AppBytes(offset, pool, app, first))
    requires forall i :: 0 <= i < |pool| ==> RecordReadsAs(wire, Records(offset, pool)[i], pool[i])
    ensures AppOk(wire, at, Records(offset, pool), app, first)
  {
    hide Word, Encode, HasAt, FieldsOk, Records, Concat, ReferenceParts, IsSafeAppId, Zero, Fields;
    HasInside(wire, at, AppBytes(offset, pool, app, first));
    ConcatLength(ReferenceParts(offset, pool, Fields(app)), 16);
    Pow256Values();
    var tail4 := Encode(app.memoryLimitMib, 8) + Zeros(16);
    var tail3 := Encode(app.cpuLimitSeconds, 8) + tail4;
    var tail2 := Encode(|app.args|, 8) + tail3;
    var index := if app.args == [] then 0 else first;
    HasSplit(wire, at, Concat(ReferenceParts(offset, pool, Fields(app))), Encode(index, 8) + tail2);
    HasSplit(wire, at + 144, Encode(index, 8), tail2);
    HasSplit(wire, at + 152, Encode(|app.args|, 8), tail3);
    HasSplit(wire, at + 160, Encode(app.cpuLimitSeconds, 8), tail4);
    HasSplit(wire, at + 168, Encode(app.memoryLimitMib, 8), Zeros(16));
    HasWord(wire, at + 144, index, 8);
    HasWord(wire, at + 152, |app.args|, 8);
    HasWord(wire, at + 160, app.cpuLimitSeconds, 8);
    HasWord(wire, at + 168, app.memoryLimitMib, 8);
    HasZeros(wire, at + 176, 16);
    ReferencesRead(wire, at, offset, pool, Fields(app));
  }

  function AppParts(offset: nat, pool: seq<string>, apps: seq<AppEntry>): (parts: seq<seq<byte>>)
    ensures |parts| == |apps| && forall i :: 0 <= i < |parts| ==>
      parts[i] == AppBytes(offset, pool, apps[i], |AllArgs(apps[..i])|) && |parts[i]| == APP_STRIDE
  {
    seq(|apps|, i requires 0 <= i < |apps| => AppBytes(offset, pool, apps[i], |AllArgs(apps[..i])|))
  }

  // ---------------------------------------------------------------- the header

  function DescriptorBytes(d: Descriptor): (b: seq<byte>)
    ensures |b| == DESCRIPTOR_SIZE
  {
    Encode(d.offset, 8) + (Encode(d.count, 8) + (Encode(d.stride, 4) + Encode(d.flags, 4)))
  }

  predicate DescriptorFits(d: Descriptor) {
    d.offset <= MAX_U64 && d.count <= MAX_U64 && d.stride < TWO32 && d.flags < TWO32
  }

  lemma DescriptorReads(wire: Wire, d: Descriptor, k: nat)
    requires HEADER_SIZE <= |wire| && k < 4 && DescriptorFits(d)
    requires HasAt(wire, DESCRIPTOR_OFFSET + k * DESCRIPTOR_SIZE, DescriptorBytes(d))
    ensures Table(wire, k) == d
  {
    hide Word, Encode, HasAt;
    Pow256Values();
    var at := DESCRIPTOR_OFFSET + k * DESCRIPTOR_SIZE;
    HasSplit(wire, at, Encode(d.offset, 8), Encode(d.count, 8) + (Encode(d.stride, 4) + Encode(d.flags, 4)));
    HasSplit(wire, at + 8, Encode(d.count, 8), Encode(d.stride, 4) + Encode(d.flags, 4));
    HasSplit(wire, at + 16, Encode(d.stride, 4), Encode(d.flags, 4));
    HasWord(wire, at, d.offset, 8);
    HasWord(wire, at + 8, d.count, 8);
    HasWord(wire, at + 16, d.stride, 4);
    HasWord(wire, at + 20, d.flags, 4);
  }

  function Magic(): (b: seq<byte>)
    ensures |b| == 4
  {
    [0x54, 0x4C, 0x41, 0x43]
  }

  function HeadBytes(total: nat): (b: seq<byte>)
    ensures |b| == DESCRIPTOR_OFFSET
  {
    Magic() + (Encode(1, 2) + (Encode(0, 2) + (Encode(HEADER_SIZE, 4) + (Encode(total, 8) + (Encode(4, 4)
    + (Encode(0, 4) + Encode(0, 4)))))))
  }

  lemma HeadReads(wire: Wire)
    requires HEADER_SIZE <= |wire| <= MAX_SERIALIZED_BYTES && HasAt(wire, 0, HeadBytes(|wire|))
    ensures HeaderOk(wire)
  {
    MagicReads(wire);
    hide Word, Encode, HasAt, Magic;
    Pow256Values();
    var t6 := Encode(0, 4) + Encode(0, 4);
    var t5 := Encode(4, 4) + t6;
    var t4 := Encode(|wire|, 8) + t5;
    var t3 := Encode(HEADER_SIZE, 4) + t4;
    var t2 := Encode(0, 2) + t3;
    HasSplit(wire, 0, Magic(), Encode(1, 2) + t2);
    HasSplit(wire, 4, Encode(1, 2), t2);
    HasSplit(wire, 6, Encode(0, 2), t3);
    HasSplit(wire, 8, Encode(HEADER_SIZE, 4), t4);
    HasSplit(wire, 12, Encode(|wire|, 8), t5);
    HasSplit(wire, 20, Encode(4, 4), t6);
    HasSplit(wire, 24, Encode(0, 4), Encode(0, 4));
    HasWord(wire, 4, 1, 2);
    HasWord(wire, 6, 0, 2);
    HasWord(wire, 8, HEADER_SIZE, 4);
    HasWord(wire, 12, |wire|, 8);
    HasWord(wire, 20, 4, 4);
    HasWord(wire, 24, 0, 4);
    HasWord(wire, 28, 0, 4);
  }

  lemma MagicReads(wire: Wire)
    requires HasAt(wire, 0, HeadBytes(|wire|))
    ensures |wire| >= 4 && wire[0] == 0x54 && wire[1] == 0x4C && wire[2] == 0x41 && wire[3] == 0x43
  {
    hide Encode;
    assert forall i :: 0 <= i < 4 ==> wire[i] == wire[0..DESCRIPTOR_OFFSET][i] == HeadBytes(|wire|)[i] == Magic()[i];
  }

  function InfoBytes(appCount: nat, argCount: nat): (b: seq<byte>)
    ensures |b| == INFO_STRIDE
  {
    Encode(1, 4) + (Encode(0, 4) + (Encode(appCount, 8) + (Encode(argCount, 8) + Zeros(8))))
  }

  lemma InfoReads(wire: Wire, appCount: nat, argCount: nat)
    requires HEADER_SIZE + INFO_STRIDE <= |wire| && HasAt(wire, HEADER_SIZE, InfoBytes(appCount, argCount))
    requires Apps(wire).count == appCount <= MAX_U64 && Args(wire).count == argCount <= MAX_U64
    ensures InfoOk(wire)
  {
    hide Word, Encode, HasAt, Table, Zero;
    Pow256Values();
    var t3 := Encode(argCount, 8) + Zeros(8);
    var t2 := Encode(appCount, 8) + t3;
    HasSplit(wire, 128, Encode(1, 4), Encode(0, 4) + t2);
    HasSplit(wire, 132, Encode(0, 4), t2);
    HasSplit(wire, 136, Encode(appCount, 8), t3);
    HasSplit(wire, 144, Encode(argCount, 8), Zeros(8));
    HasWord(wire, 128, 1, 4);
    HasWord(wire, 132, 0, 4);
    HasWord(wire, 136, appCount, 8);
    HasWord(wire, 144, argCount, 8);
    HasZeros(wire, 152, 8);
  }

  // ---------------------------------------------------------------- the whole buffer

  // plan_wire: where the tables start, without gaps between them.
  const TABLES_AT: nat := HEADER_SIZE + INFO_STRIDE

  function ArgsStart(apps: seq<AppEntry>): nat { TABLES_AT + |apps| * APP_STRIDE }

  function StringsStart(apps: seq<AppEntry>): (at: nat)
    ensures at % 8 == 0
  {
    EightDivides(|apps|, |AllArgs(apps)|);
    ArgsStart(apps) + |AllArgs(apps)| * ARG_STRIDE
  }

  lemma EightDivides(n: nat, m: nat)
    ensures (TABLES_AT + n * APP_STRIDE + m * ARG_STRIDE) % 8 == 0
  {
    assert TABLES_AT + n * APP_STRIDE + m * ARG_STRIDE == 8 * (20 + n * 24 + m * 2);
  }

  function Placed(count: nat, at: nat): nat { if count == 0 then 0 else at }

  function AppsTable(apps: seq<AppEntry>): Descriptor {
    Descriptor(Placed(|apps|, TABLES_AT), |apps|, APP_STRIDE, 0)
  }

  function ArgsTable(apps: seq<AppEntry>): Descriptor {
    Descriptor(Placed(|AllArgs(apps)|, ArgsStart(apps)), |AllArgs(apps)|, ARG_STRIDE, 0)
  }

  function StringsTable(apps: seq<AppEntry>): Descriptor {
    Descriptor(Placed(|StringPool(apps)|, StringsStart(apps)), |StringPool(apps)|, 0, VARIABLE_RECORDS)
  }

  const INFO_TABLE := Descriptor(HEADER_SIZE, 1, INFO_STRIDE, 0)

  predicate AllNarrowIn(apps: seq<AppEntry>) { AllNarrow(StringPool(apps)) }

  function StringBytes(apps: seq<AppEntry>): seq<byte>
    requires AllNarrowIn(apps)
  {
    Concat(RecordParts(StringPool(apps)))
  }

  function TotalSize(apps: seq<AppEntry>): nat
    requires AllNarrowIn(apps)
  {
    StringsStart(apps) + |StringBytes(apps)|
  }

  function AppsBytes(apps: seq<AppEntry>): seq<byte> { Concat(AppParts(StringsStart(apps), StringPool(apps), apps)) }

  function ArgsBytes(apps: seq<AppEntry>): seq<byte> {
    Concat(ReferenceParts(StringsStart(apps), StringPool(apps), AllArgs(apps)))
  }

  // write_wire.
  function Serialize(apps: seq<AppEntry>): Wire
    requires AllNarrowIn(apps)
  {
    HeadBytes(TotalSize(apps))
    + (DescriptorBytes(INFO_TABLE) + (DescriptorBytes(AppsTable(apps)) + (DescriptorBytes(ArgsTable(apps))
    + (DescriptorBytes(StringsTable(apps)) + (InfoBytes(|apps|, |AllArgs(apps)|)
    + (AppsBytes(apps) + (ArgsBytes(apps) + StringBytes(apps))))))))
  }

  // The catalogs that have a representation.
  ghost predicate Fits(apps: seq<AppEntry>) {
    && |apps| <= MAX_APPS && |AllArgs(apps)| <= MAX_ARGS && |StringPool(apps)| <= MAX_STRINGS
    && DistinctIds(apps) && (forall i :: 0 <= i < |apps| ==> AppFits(apps[i]))
    && AllNarrowIn(apps) && PoolBytes(StringPool(apps)) <= MAX_DECODED_STRING_BYTES
    && (forall i :: 0 <= i < |StringPool(apps)| ==> |StringPool(apps)[i]| <= MAX_STRING_BYTES)
    && TotalSize(apps) <= MAX_SERIALIZED_BYTES
  }

  // Where each part of the buffer lies.
  ghost predicate IsLaidOut(wire: Wire, apps: seq<AppEntry>)
    requires AllNarrowIn(apps)
  {
    && |wire| == TotalSize(apps) && HasAt(wire, 0, HeadBytes(|wire|))
    && HasAt(wire, 32, DescriptorBytes(INFO_TABLE)) && HasAt(wire, 56, DescriptorBytes(AppsTable(apps)))
    && HasAt(wire, 80, DescriptorBytes(ArgsTable(apps))) && HasAt(wire, 104, DescriptorBytes(StringsTable(apps)))
    && HasAt(wire, HEADER_SIZE, InfoBytes(|apps|, |AllArgs(apps)|))
    && HasAt(wire, TABLES_AT, AppsBytes(apps)) && HasAt(wire, ArgsStart(apps), ArgsBytes(apps))
    && HasAt(wire, StringsStart(apps), StringBytes(apps))
  }

  lemma TableLengths(apps: seq<AppEntry>)
    ensures |AppsBytes(apps)| == |apps| * APP_STRIDE && |ArgsBytes(apps)| == |AllArgs(apps)| * ARG_STRIDE
  {
    ConcatLength(AppParts(StringsStart(apps), StringPool(apps), apps), APP_STRIDE);
    ConcatLength(ReferenceParts(StringsStart(apps), StringPool(apps), AllArgs(apps)), ARG_STRIDE);
  }

  lemma SerializedIsLaidOut(apps: seq<AppEntry>)
    requires AllNarrowIn(apps)
    ensures IsLaidOut(Serialize(apps), apps)
  {
    hide HasAt, AppsBytes, ArgsBytes, StringBytes, StringPool, AllArgs, DescriptorBytes, HeadBytes, InfoBytes;
    TableLengths(apps);
    var wire := Serialize(apps);
    var t7 := ArgsBytes(apps) + StringBytes(apps);
    var t6 := AppsBytes(apps) + t7;
    var t5 := InfoBytes(|apps|, |AllArgs(apps)|) + t6;
    var t4 := DescriptorBytes(StringsTable(apps)) + t5;
    var t3 := DescriptorBytes(ArgsTable(apps)) + t4;
    var t2 := DescriptorBytes(AppsTable(apps)) + t3;
    var t1 := DescriptorBytes(INFO_TABLE) + t2;
    HasItself(wire);
    HasSplit(wire, 0, HeadBytes(TotalSize(apps)), t1);
    HasSplit(wire, 32, DescriptorBytes(INFO_TABLE), t2);
    HasSplit(wire, 56, DescriptorBytes(AppsTable(apps)), t3);
    HasSplit(wire, 80, DescriptorBytes(ArgsTable(apps)), t4);
    HasSplit(wire, 104, DescriptorBytes(StringsTable(apps)), t5);
    HasSplit(wire, 128, InfoBytes(|apps|, |AllArgs(apps)|), t6);
    HasSplit(wire, 160, AppsBytes(apps), t7);
    HasSplit(wire, ArgsStart(apps), ArgsBytes(apps), StringBytes(apps));
  }

  lemma HasItself(wire: Wire)
    ensures HasAt(wire, 0, wire)
  {
    assert wire[0..|wire|] == wire;
  }

  // The descriptors read back, and satisfy what the decoder checks.
  ghost predicate DescriptorsRead(wire: Wire, apps: seq<AppEntry>) {
    && HEADER_SIZE <= |wire|
    && Info(wire) == INFO_TABLE && Apps(wire) == AppsTable(apps) && Args(wire) == ArgsTable(apps)
    && Strings(wire) == StringsTable(apps)
  }

  lemma DescriptorsAreRead(wire: Wire, apps: seq<AppEntry>)
    requires Fits(apps) && IsLaidOut(wire, apps)
    ensures DescriptorsRead(wire, apps)
  {
    hide HasAt, AppsBytes, ArgsBytes, StringBytes, StringPool, AllArgs, DescriptorBytes, HeadBytes, InfoBytes, Table;
    DescriptorReads(wire, INFO_TABLE, 0);
    DescriptorReads(wire, AppsTable(apps), 1);
    DescriptorReads(wire, ArgsTable(apps), 2);
    DescriptorReads(wire, StringsTable(apps), 3);
  }

  lemma TablesAreOk(wire: Wire, apps: seq<AppEntry>)
    requires Fits(apps) && DescriptorsRead(wire, apps) && |wire| == TotalSize(apps)
    ensures TablesOk(wire)
  {
    hide AppsBytes, ArgsBytes, StringBytes, StringPool, AllArgs, Table;
    forall i: nat, j: nat | i < j < 4 ensures Follows(Table(wire, j), Table(wire, i), |wire|) {
      if i == 0 {} else if i == 1 {} else {}
    }
  }

  lemma GapsAreOk(wire: Wire, apps: seq<AppEntry>)
    requires Fits(apps) && DescriptorsRead(wire, apps) && |wire| == TotalSize(apps)
    ensures GapsOk(wire)
  {
    hide AppsBytes, ArgsBytes, StringPool, AllArgs, Table;
    if |StringPool(apps)| == 0 { NoStringBytes(apps); }
    hide StringBytes;
    forall i: nat | HEADER_SIZE <= i < |wire| ensures InTables(wire, i) {
      if i < TABLES_AT { assert Inside(Table(wire, 0), |wire|, i); }
      else if i < ArgsStart(apps) { assert Inside(Table(wire, 1), |wire|, i); }
      else if i < StringsStart(apps) { assert Inside(Table(wire, 2), |wire|, i); }
      else { assert Inside(Table(wire, 3), |wire|, i); }
    }
    if |StringPool(apps)| > 0 { assert End(Table(wire, 3), |wire|) == |wire|; }
    else if |AllArgs(apps)| > 0 { assert End(Table(wire, 2), |wire|) == |wire|; }
    else if |apps| > 0 { assert End(Table(wire, 1), |wire|) == |wire|; }
    else { assert End(Table(wire, 0), |wire|) == |wire|; }
  }

  lemma NoStringBytes(apps: seq<AppEntry>)
    requires AllNarrowIn(apps) && |StringPool(apps)| == 0
    ensures |StringBytes(apps)| == 0
  {
  }

  lemma PoolOfFits(apps: seq<AppEntry>)
    requires Fits(apps)
    ensures PoolFits(StringPool(apps))
    ensures forall i :: 0 <= i < |apps| ==> forall v :: v in Fields(apps[i]) ==> v == [] || v in StringPool(apps)
    ensures forall v :: v in AllArgs(apps) ==> v == [] || v in StringPool(apps)
  {
    hide Fields, AllFields, AllArgs, Pool;
    PoolFacts(AllFields(apps) + AllArgs(apps));
    forall i | 0 <= i < |apps| ensures forall v :: v in Fields(apps[i]) ==> v in AllFields(apps) {
      AllFieldsHave(apps, i);
    }
    var pool := StringPool(apps);
    forall i | 0 <= i < |pool| ensures 0 < |pool[i]| { assert pool[i] in pool; }
  }

  lemma StringsAreOk(wire: Wire, apps: seq<AppEntry>)
    requires Fits(apps) && DescriptorsRead(wire, apps) && IsLaidOut(wire, apps)
    ensures var records := Records(StringsStart(apps), StringPool(apps));
      && StringsOk(wire, records)
      && forall i :: 0 <= i < |StringPool(apps)| ==> RecordReadsAs(wire, records[i], StringPool(apps)[i])
  {
    PoolOfFits(apps);
    hide AppsBytes, ArgsBytes, StringPool, AllArgs, Table, Concat, HeadBytes, DescriptorBytes, InfoBytes, RecordsOk;
    hide RecordReadsAs, HasAt, RecordParts, Records;
    var pool, offset := StringPool(apps), StringsStart(apps);
    StringsRead(wire, offset, pool);
    StartIsLength(offset, pool);
    if pool == [] { NoRecordsOk(wire, Records(offset, pool)); }
  }

  lemma NoRecordsOk(wire: Wire, records: seq<Record>)
    requires records == []
    ensures RecordsOk(wire, 0, records)
  {
  }

  // The records of the pool have been found to read as its strings.
  ghost predicate PoolReads(wire: Wire, apps: seq<AppEntry>) {
    var records := Records(StringsStart(apps), StringPool(apps));
    && |wire| <= MAX_SERIALIZED_BYTES
    && forall i :: 0 <= i < |StringPool(apps)| ==> RecordReadsAs(wire, records[i], StringPool(apps)[i])
  }

  lemma ArgsAreOk(wire: Wire, apps: seq<AppEntry>)
    requires Fits(apps) && DescriptorsRead(wire, apps) && IsLaidOut(wire, apps) && PoolReads(wire, apps)
    ensures ArgsOk(wire, Records(StringsStart(apps), StringPool(apps)), AllArgs(apps))
  {
    hide *;
    ArgsRead(wire, apps);
    FieldsAreArgs(wire, apps, Records(StringsStart(apps), StringPool(apps)));
  }

  lemma ArgsRead(wire: Wire, apps: seq<AppEntry>)
    requires Fits(apps) && IsLaidOut(wire, apps) && PoolReads(wire, apps)
    ensures FieldsOk(wire, ArgsStart(apps), Records(StringsStart(apps), StringPool(apps)), AllArgs(apps))
  {
    PoolOfFits(apps);
    hide *;
    ReferencesRead(wire, ArgsStart(apps), StringsStart(apps), StringPool(apps), AllArgs(apps));
  }

  lemma FieldsAreArgs(wire: Wire, apps: seq<AppEntry>, records: seq<Record>)
    requires DescriptorsRead(wire, apps) && FieldsOk(wire, ArgsStart(apps), records, AllArgs(apps))
    ensures ArgsOk(wire, records, AllArgs(apps))
  {
    hide StringPool, AllArgs, Table, RefersTo;
  }

  lemma AppsAreOk(wire: Wire, apps: seq<AppEntry>)
    requires Fits(apps) && DescriptorsRead(wire, apps) && IsLaidOut(wire, apps) && PoolReads(wire, apps)
    ensures AppsOk(wire, Records(StringsStart(apps), StringPool(apps)), apps)
  {
    hide StringPool, AllArgs, Table, AppOk, IsLaidOut, PoolReads, Records, StringsStart, StringBytes;
    forall i: nat | i < |apps|
      ensures AppOk(wire, TABLES_AT + i * APP_STRIDE, Records(StringsStart(apps), StringPool(apps)), apps[i],
                    |AllArgs(apps[..i])|)
    {
      OneApp(wire, apps, i);
    }
  }

  lemma OneApp(wire: Wire, apps: seq<AppEntry>, i: nat)
    requires Fits(apps) && IsLaidOut(wire, apps) && PoolReads(wire, apps) && i < |apps|
    ensures AppOk(wire, TABLES_AT + i * APP_STRIDE, Records(StringsStart(apps), StringPool(apps)), apps[i],
                  |AllArgs(apps[..i])|)
  {
    hide *;
    FieldsPooled(apps, i);
    ArgsBounded(apps, i);
    AppPartAt(wire, apps, i);
    AppFitsAt(apps, i);
    PoolReadsEach(wire, apps);
    AppReads(wire, TABLES_AT + i * APP_STRIDE, StringsStart(apps), StringPool(apps), apps[i], |AllArgs(apps[..i])|);
  }

  lemma FieldsPooled(apps: seq<AppEntry>, i: nat)
    requires Fits(apps) && i < |apps|
    ensures AllNarrowIn(apps)
    ensures forall k :: 0 <= k < 9 ==> Fields(apps[i])[k] == [] || Fields(apps[i])[k] in StringPool(apps)
  {
    PoolOfFits(apps);
    hide Fields, StringPool;
    forall k | 0 <= k < 9 ensures Fields(apps[i])[k] == [] || Fields(apps[i])[k] in StringPool(apps) {
      assert Fields(apps[i])[k] in Fields(apps[i]);
    }
  }

  lemma PoolReadsEach(wire: Wire, apps: seq<AppEntry>)
    requires PoolReads(wire, apps)
    ensures |wire| <= MAX_SERIALIZED_BYTES
    ensures forall i :: 0 <= i < |StringPool(apps)| ==>
      RecordReadsAs(wire, Records(StringsStart(apps), StringPool(apps))[i], StringPool(apps)[i])
  {
  }

  lemma AppPartAt(wire: Wire, apps: seq<AppEntry>, i: nat)
    requires AllNarrowIn(apps) && IsLaidOut(wire, apps) && i < |apps|
    ensures HasAt(wire, TABLES_AT + i * APP_STRIDE,
                  AppBytes(StringsStart(apps), StringPool(apps), apps[i], |AllArgs(apps[..i])|))
  {
    hide ArgsBytes, StringBytes, StringPool, AllArgs, Concat, HeadBytes, DescriptorBytes, InfoBytes, HasAt, AppBytes;
    PartAt(wire, TABLES_AT, AppParts(StringsStart(apps), StringPool(apps), apps), APP_STRIDE, i);
  }

  lemma AppFitsAt(apps: seq<AppEntry>, i: nat)
    requires Fits(apps) && i < |apps|
    ensures AppFits(apps[i]) && |AllArgs(apps)| <= MAX_U64
  {
  }

  lemma ArgsBounded(apps: seq<AppEntry>, i: nat)
    requires i < |apps|
    ensures |AllArgs(apps[..i])| + |apps[i].args| <= |AllArgs(apps)|
  {
    AllArgsPrefix(apps, i);
    AllArgsPrefix(apps, i + 1);
  }

  // Main result: what the serializer writes for a catalog represents that catalog. So the
  // decoder, which accepts exactly the representations, gives it back.
  lemma SerializedRepresents(apps: seq<AppEntry>)
    requires Fits(apps)
    ensures Represents(Serialize(apps), apps)
  {
    hide Serialize, HeaderOk, TablesOk, GapsOk, StringsOk, InfoOk, ArgsOk, AppsOk, DescriptorsRead, IsLaidOut;
    var wire := Serialize(apps);
    SerializedIsLaidOut(apps);
    SizeOfLayout(wire, apps);
    DescriptorsAreRead(wire, apps);
    HeadIsOk(wire, apps);
    TablesAreOk(wire, apps);
    GapsAreOk(wire, apps);
    StringsAreOk(wire, apps);
    ArgsAreOk(wire, apps);
    AppsAreOk(wire, apps);
    assert Layout(wire, Records(StringsStart(apps), StringPool(apps)), apps);
  }

  lemma SizeOfLayout(wire: Wire, apps: seq<AppEntry>)
    requires AllNarrowIn(apps) && IsLaidOut(wire, apps)
    ensures |wire| == TotalSize(apps)
  {
  }

  lemma HeadIsOk(wire: Wire, apps: seq<AppEntry>)
    requires Fits(apps) && DescriptorsRead(wire, apps) && IsLaidOut(wire, apps)
    ensures HeaderOk(wire) && InfoOk(wire)
  {
    hide ArgsBytes, AppsBytes, StringBytes, StringPool, AllArgs, Table, HeadBytes, DescriptorBytes, InfoBytes, HasAt;
    HeadReads(wire);
    InfoReads(wire, |apps|, |AllArgs(apps)|);
  }

  // A catalog that is written and decoded comes back.
  method WriteAndDecode(apps: seq<AppEntry>) returns (result: Option<seq<AppEntry>>)
    requires Fits(apps)
    ensures result == Some(apps)
  {
    hide *;
    assert AllNarrowIn(apps) by { FitsIsNarrow(apps); }
    SerializedRepresents(apps);
    result := D.Decode(Serialize(apps));
    if result.Some? { D.RepresentsOnce(Serialize(apps), result.value, apps); }
  }

  lemma FitsIsNarrow(apps: seq<AppEntry>)
    requires Fits(apps)
    ensures AllNarrowIn(apps)
  {
  }
}
