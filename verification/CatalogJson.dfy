// The catalog file: save_to_file, the parser of load_from_file, add_app and remove_app
// (src/catalog/app_catalog.cpp).
module CatalogJson {
  import opened Catalog
  import opened JsonText
  import opened TextSearch

  // ---------------------------------------------------------------- members

  datatype Field =
    | Id | Name | ExecutablePath | PrefixPath | IconPath | WorkingDirectory | Sha256 | Version | CreatedAt
    | CpuLimit | MemoryLimit | ArgsField

  function Key(f: Field): string {
    match f
    case Id => "id"
    case Name => "name"
    case ExecutablePath => "executable_path"
    case PrefixPath => "prefix_path"
    case IconPath => "icon_path"
    case WorkingDirectory => "working_directory"
    case Sha256 => "app_sha256"
    case Version => "app_version"
    case CreatedAt => "created_at"
    case CpuLimit => "cpu_limit_seconds"
    case MemoryLimit => "memory_limit_mib"
    case ArgsField => "args"
  }

  // The members in the order in which they are written.
  const FIELDS: seq<Field> :=
    [Id, Name, ExecutablePath, PrefixPath, IconPath, WorkingDirectory, Sha256, Version, CreatedAt, CpuLimit,
     MemoryLimit, ArgsField]

  // The comparisons of load_from_file, in its order.
  function FieldOf(key: string): Option<Field> {
    if key == Key(ArgsField) then Some(ArgsField)
    else if key == Key(CpuLimit) then Some(CpuLimit)
    else if key == Key(MemoryLimit) then Some(MemoryLimit)
    else if key == Key(Id) then Some(Id)
    else if key == Key(Name) then Some(Name)
    else if key == Key(ExecutablePath) then Some(ExecutablePath)
    else if key == Key(PrefixPath) then Some(PrefixPath)
    else if key == Key(IconPath) then Some(IconPath)
    else if key == Key(WorkingDirectory) then Some(WorkingDirectory)
    else if key == Key(Sha256) then Some(Sha256)
    else if key == Key(Version) then Some(Version)
    else if key == Key(CreatedAt) then Some(CreatedAt)
    else None
  }

  function SetText(e: AppEntry, f: Option<Field>, value: string): AppEntry {
    match f
    case Some(Id) => e.(id := value)
    case Some(Name) => e.(name := value)
    case Some(ExecutablePath) => e.(executablePath := value)
    case Some(PrefixPath) => e.(prefixPath := value)
    case Some(IconPath) => e.(iconPath := value)
    case Some(WorkingDirectory) => e.(workingDirectory := value)
    case Some(Sha256) => e.(sha256 := value)
    case Some(Version) => e.(version := value)
    case Some(CreatedAt) => e.(createdAt := value)
    case _ => e
  }

  function TextOf(e: AppEntry, f: Field): string {
    match f
    case Id => e.id
    case Name => e.name
    case ExecutablePath => e.executablePath
    case PrefixPath => e.prefixPath
    case IconPath => e.iconPath
    case WorkingDirectory => e.workingDirectory
    case Sha256 => e.sha256
    case Version => e.version
    case CreatedAt => e.createdAt
    case _ => []
  }

  const BLANK := AppEntry([], [], [], [], [], [], [], [], [], [], 0, 0)

  // What load_from_file keeps.
  predicate IsUsable(e: AppEntry) { IsSafeAppId(e.id) && e.executablePath != [] }

  // ---------------------------------------------------------------- writing

  function ArgsText(args: seq<string>): string {
    if args == [] then []
    else if |args| == 1 then Quoted(args[0])
    else Quoted(args[0]) + [',', ' '] + ArgsText(args[1..])
  }

  function ValueText(e: AppEntry, f: Field): string {
    match f
    case CpuLimit => Decimal(e.cpuLimitSeconds)
    case MemoryLimit => Decimal(e.memoryLimitMib)
    case ArgsField => ['['] + ArgsText(e.args) + [']']
    case _ => Quoted(TextOf(e, f))
  }

  function Indent(n: nat): string { seq(n, _ => ' ') }

  function MemberText(e: AppEntry, k: nat): string
    requires k < |FIELDS|
  {
    Indent(6) + ['\"'] + Key(FIELDS[k]) + ['\"', ':', ' '] + ValueText(e, FIELDS[k])
    + (if k + 1 < |FIELDS| then [',', '\n'] else ['\n'])
  }

  // The members from number k on, and the end of the object.
  function MembersText(e: AppEntry, k: nat): string
    requires k <= |FIELDS|
    decreases |FIELDS| - k
  {
    if k == |FIELDS| then Indent(4) + ['}'] else MemberText(e, k) + MembersText(e, k + 1)
  }

  function AppText(e: AppEntry): string { Indent(4) + ['{', '\n'] + MembersText(e, 0) }

  function AppsText(apps: seq<AppEntry>): string {
    if apps == [] then []
    else AppText(apps[0]) + (if |apps| > 1 then [',', '\n'] else ['\n']) + AppsText(apps[1..])
  }

  function Start(): string { "{\n  \"version\": 1,\n  \"apps\": [\n" }
  function Finish(): string { "  ]\n}\n" }

  function SaveText(apps: seq<AppEntry>): string { Start() + AppsText(apps) + Finish() }

  // ---------------------------------------------------------------- reading

  function SkipChar(s: string, c: char): (r: string)
    ensures |r| <= |s|
  {
    if s != [] && s[0] == c then s[1..] else s
  }

  // The elements of an argument list, after the bracket.
  function ReadArgs(s: string, args: seq<string>): (r: (seq<string>, string))
    ensures |r.1| <= |s|
    decreases |s|
  {
    var t := SkipSpace(s);
    if t == [] then (args, t)
    else if t[0] == ']' then (args, t[1..])
    else if t[0] == ',' then ReadArgs(t[1..], args)
    else
      var p := ParseString(t);
      if p.value.None? then (args, p.rest) else ReadArgs(p.rest, args + [p.value.value])
  }

  function ReadValue(s: string, f: Option<Field>, e: AppEntry): (r: (AppEntry, string))
    ensures |r.1| <= |s|
  {
    match f
    case Some(ArgsField) =>
      if s != [] && s[0] == '[' then var (args, rest) := ReadArgs(s[1..], e.args); (e.(args := args), rest) else (e, s)
    case Some(CpuLimit) =>
      var p := ParseUint(s);
      (if p.value.Some? then e.(cpuLimitSeconds := p.value.value) else e, p.rest)
    case Some(MemoryLimit) =>
      var p := ParseUint(s);
      (if p.value.Some? then e.(memoryLimitMib := p.value.value) else e, p.rest)
    case _ =>
      var p := ParseString(s);
      (if p.value.Some? then SetText(e, f, p.value.value) else e, p.rest)
  }

  // The source removes a character from a text that may be empty when a key is not closed
  // before the end of the file; what happens then is not defined.
  datatype Reading<T> = Undefined | Read(value: T, rest: string)

  // The members of one object, after its brace.
  function ReadMembers(s: string, e: AppEntry): (r: Reading<AppEntry>)
    ensures r.Read? ==> |r.rest| <= |s|
    decreases |s|
  {
    var t := SkipSpace(s);
    if t == [] then Read(e, t)
    else if t[0] == '}' then Read(e, t[1..])
    else
      var key := ParseString(t);
      if key.value.None? then
        if key.rest == [] then Undefined else ReadMembers(key.rest[1..], e)
      else
        var (next, rest) := ReadValue(SkipSpace(SkipChar(SkipSpace(key.rest), ':')), FieldOf(key.value.value), e);
        ReadMembers(SkipChar(SkipSpace(rest), ','), next)
  }

  // The objects of the list, after its bracket.
  function ReadApps(s: string, apps: seq<AppEntry>): Reading<seq<AppEntry>>
    decreases |s|
  {
    var t := SkipSpace(s);
    if t == [] || t[0] == ']' || IndexOf(t, '{') == |t| then Read(apps, t)
    else
      var item := ReadMembers(t[IndexOf(t, '{') + 1..], BLANK);
      if item.Undefined? then Undefined
      else ReadApps(SkipChar(SkipSpace(item.rest), ','), if IsUsable(item.value) then apps + [item.value] else apps)
  }

  function AppsKey(): string { "\"apps\"" }

  datatype Loaded = NotACatalog | Unspecified | Apps(apps: seq<AppEntry>)

  function Load(content: string): Loaded {
    var at := Find(content, AppsKey(), 0);
    if at == |content| then NotACatalog
    else
      var t := content[at + |AppsKey()|..];
      var bracket := IndexOf(t, '[');
      if bracket == |t| then NotACatalog
      else
        var list := ReadApps(t[bracket + 1..], []);
        if list.Undefined? then Unspecified else Apps(list.value)
  }

  // ---------------------------------------------------------------- reading what was written

  predicate IsPlain(c: char) { c as int >= 32 && c != '\"' && c != '\\' }

  lemma {:induction false} PlainEscape(s: string)
    requires forall i :: 0 <= i < |s| ==> IsPlain(s[i])
    ensures Escape(s) == s
  {
    if s != [] {
      PlainEscape(s[1..]);
      assert EscapeChar(s[0]) == [s[0]];
      assert s == [s[0]] + s[1..];
    }
  }

  lemma KeyIsPlain(f: Field)
    ensures forall i :: 0 <= i < |Key(f)| ==> IsPlain(Key(f)[i])
  {
  }

  lemma KeysDiffer(f: Field)
    ensures FieldOf(Key(f)) == Some(f)
  {
    var k := Key(f);
    assert |k| == match f
      case Id => 2 case Name => 4 case ExecutablePath => 15 case PrefixPath => 11 case IconPath => 9
      case WorkingDirectory => 17 case Sha256 => 10 case Version => 11 case CreatedAt => 10
      case CpuLimit => 17 case MemoryLimit => 16 case ArgsField => 4;
    assert f == Name ==> k[0] == 'n';
    assert f == WorkingDirectory ==> k[0] == 'w';
    assert f == PrefixPath ==> k[0] == 'p';
    assert f == Version ==> k[0] == 'a';
    assert f == Sha256 ==> k[0] == 'a';
    assert f == CreatedAt ==> k[0] == 'c';
    assert f == CpuLimit ==> k[0] == 'c';
    assert f == ArgsField ==> k[0] == 'a';
  }

  lemma KeyReads(f: Field, rest: string)
    ensures ParseString(['\"'] + Key(f) + ['\"'] + rest) == Parsed(Some(Key(f)), rest)
  {
    hide Key, ParseString;
    KeyIsPlain(f);
    PlainEscape(Key(f));
    QuotedReads(Key(f), rest);
    assert ['\"'] + Key(f) + ['\"'] + rest == Quoted(Key(f)) + rest;
  }

  lemma {:induction false} ArgsRead(args: seq<string>, before: seq<string>, rest: string)
    ensures ReadArgs(ArgsText(args) + [']'] + rest, before) == (before + args, rest)
    decreases |args|
  {
    hide Quoted, ReadArgs;
    if args == [] {
      assert ArgsText(args) + [']'] + rest == [']'] + rest && before + args == before;
      ArgsEnd(before, rest);
    } else {
      var more := if |args| == 1 then [']'] + rest else [',', ' '] + (ArgsText(args[1..]) + [']'] + rest);
      assert ArgsText(args) + [']'] + rest == Quoted(args[0]) + more;
      OneArg(args[0], before, more);
      assert before + args == before + [args[0]] + args[1..];
      if |args| == 1 {
        assert args == [args[0]];
        ArgsEnd(before + [args[0]], rest);
      } else {
        ArgsComma(ArgsText(args[1..]) + [']'] + rest, before + [args[0]]);
        ArgsRead(args[1..], before + [args[0]], rest);
      }
    }
  }

  lemma ArgsEnd(before: seq<string>, rest: string)
    ensures ReadArgs([']'] + rest, before) == (before, rest)
  {
    var s := [']'] + rest;
    assert SkipSpace(s) == s && s[1..] == rest;
  }

  lemma ArgsComma(s: string, before: seq<string>)
    ensures ReadArgs([',', ' '] + s, before) == ReadArgs(s, before)
  {
    var t := [',', ' '] + s;
    assert SkipSpace(t) == t && t[1..] == [' '] + s;
    ReadArgsSpace([' '], s, before);
  }

  lemma OneArg(arg: string, before: seq<string>, more: string)
    ensures ReadArgs(Quoted(arg) + more, before) == ReadArgs(more, before + [arg])
  {
    hide ParseString, Quoted, SkipSpace;
    QuotedReads(arg, more);
    QuotedStarts(arg, more);
  }

  lemma QuotedStarts(s: string, rest: string)
    ensures Quoted(s) + rest != [] && (Quoted(s) + rest)[0] == '\"' && SkipSpace(Quoted(s) + rest) == Quoted(s) + rest
  {
    hide Escape;
  }

  lemma ReadArgsSpace(space: string, s: string, before: seq<string>)
    requires forall i :: 0 <= i < |space| ==> IsSpace(space[i])
    ensures ReadArgs(space + s, before) == ReadArgs(s, before)
  {
    SpaceSkipped(space, s);
  }

  // What reading member f of e adds.
  function Filled(base: AppEntry, e: AppEntry, f: Field): AppEntry {
    match f
    case CpuLimit => base.(cpuLimitSeconds := e.cpuLimitSeconds)
    case MemoryLimit => base.(memoryLimitMib := e.memoryLimitMib)
    case ArgsField => base.(args := e.args)
    case _ => SetText(base, Some(f), TextOf(e, f))
  }

  predicate Writable(e: AppEntry) { e.cpuLimitSeconds <= MAX_U64 && e.memoryLimitMib <= MAX_U64 }

  lemma ValueReads(e: AppEntry, f: Field, base: AppEntry, rest: string)
    requires Writable(e) && base.args == [] && rest != [] && (rest[0] == ',' || rest[0] == '\n')
    ensures ReadValue(ValueText(e, f) + rest, Some(f), base) == (Filled(base, e, f), rest)
    ensures SkipSpace(ValueText(e, f) + rest) == ValueText(e, f) + rest
  {
    hide ParseString, Quoted, ParseUint, Decimal, ReadArgs, SetText, TextOf;
    var s := ValueText(e, f) + rest;
    match f
    case CpuLimit => NumberReads(e.cpuLimitSeconds, rest); DecimalStarts(e.cpuLimitSeconds);
    case MemoryLimit => NumberReads(e.memoryLimitMib, rest); DecimalStarts(e.memoryLimitMib);
    case ArgsField =>
      assert s[0] == '[' && s[1..] == ArgsText(e.args) + [']'] + rest;
      ArgsRead(e.args, [], rest);
      assert [] + e.args == e.args;
    case _ => QuotedReads(TextOf(e, f), rest); QuotedStarts(TextOf(e, f), rest);
  }

  lemma ReadMembersSpace(space: string, s: string, e: AppEntry)
    requires forall i :: 0 <= i < |space| ==> IsSpace(space[i])
    ensures ReadMembers(space + s, e) == ReadMembers(s, e)
  {
    SpaceSkipped(space, s);
  }

  // After a comma or a line break, the reader is where the next member starts.
  lemma MemberEnds(separator: string, s: string, e: AppEntry)
    requires separator == [',', '\n'] || (separator == ['\n'] && s != [] && SkipSpace(s) == SkipChar(SkipSpace(s), ','))
    ensures ReadMembers(SkipChar(SkipSpace(separator + s), ','), e) == ReadMembers(s, e)
  {
    if separator == [',', '\n'] {
      assert SkipSpace(separator + s) == separator + s && (separator + s)[1..] == ['\n'] + s;
      ReadMembersSpace(['\n'], s, e);
    } else {
      SpaceSkipped(separator, s);
      SpaceSkipped([], SkipSpace(s));
    }
  }

  lemma KeyAndColon(f: Field, v: string, e: AppEntry)
    requires SkipSpace(v) == v
    ensures var s := ['\"'] + Key(f) + ['\"', ':', ' '] + v;
      && SkipSpace(s) == s && s[0] == '\"' && ParseString(s).value == Some(Key(f))
      && SkipSpace(SkipChar(SkipSpace(ParseString(s).rest), ':')) == v
  {
    hide Key, ParseString;
    var s := ['\"'] + Key(f) + ['\"', ':', ' '] + v;
    var r := [':', ' '] + v;
    assert s == ['\"'] + Key(f) + ['\"'] + r;
    KeyReads(f, r);
    assert r[0] == ':' && r[1..] == [' '] + v;
    SpaceSkipped([' '], v);
  }

  lemma MemberReads(e: AppEntry, k: nat, base: AppEntry, rest: string)
    requires k < |FIELDS| && Writable(e) && base.args == []
    requires k + 1 == |FIELDS| ==> rest != [] && SkipSpace(rest) == SkipChar(SkipSpace(rest), ',')
    ensures ReadMembers(MemberText(e, k) + rest, base) == ReadMembers(rest, Filled(base, e, FIELDS[k]))
  {
    hide Key, ParseString, ReadValue, ValueText, FieldOf, Filled, SkipSpace, SkipChar, Indent, ReadMembers;
    var f := FIELDS[k];
    var separator := if k + 1 < |FIELDS| then [',', '\n'] else ['\n'];
    var v := ValueText(e, f) + (separator + rest);
    ValueReads(e, f, base, separator + rest);
    var s := ['\"'] + Key(f) + ['\"', ':', ' '] + v;
    assert MemberText(e, k) + rest == Indent(6) + s;
    IndentIsSpace(6);
    ReadMembersSpace(Indent(6), s, base);
    OneMember(f, v, base);
    MemberEnds(separator, rest, Filled(base, e, f));
  }

  lemma IndentIsSpace(n: nat)
    ensures forall i :: 0 <= i < |Indent(n)| ==> IsSpace(Indent(n)[i])
  {
  }

  lemma OneMember(f: Field, v: string, e: AppEntry)
    requires SkipSpace(v) == v
    ensures var r := ReadValue(v, Some(f), e);
      ReadMembers(['\"'] + Key(f) + ['\"', ':', ' '] + v, e) == ReadMembers(SkipChar(SkipSpace(r.1), ','), r.0)
  {
    hide Key, ParseString, ReadValue, FieldOf, SkipSpace, SkipChar;
    KeyAndColon(f, v, e);
    KeysDiffer(f);
  }

  function FilledFrom(base: AppEntry, e: AppEntry, k: nat): AppEntry
    requires k <= |FIELDS|
    decreases |FIELDS| - k
  {
    if k == |FIELDS| then base else FilledFrom(Filled(base, e, FIELDS[k]), e, k + 1)
  }

  lemma AllFilled(e: AppEntry)
    ensures FilledFrom(BLANK, e, 0) == e
  {
    var x := FilledFrom(BLANK, e, 0);
    assert x == FilledFrom(Filled(Filled(Filled(BLANK, e, Id), e, Name), e, ExecutablePath), e, 3);
    assert x == FilledFrom(Filled(Filled(Filled(
      AppEntry(e.id, e.name, e.executablePath, [], [], [], [], [], [], [], 0, 0),
      e, PrefixPath), e, IconPath), e, WorkingDirectory), e, 6);
    assert x == FilledFrom(Filled(Filled(Filled(
      AppEntry(e.id, e.name, e.executablePath, e.prefixPath, e.iconPath, e.workingDirectory, [], [], [], [], 0, 0),
      e, Sha256), e, Version), e, CreatedAt), e, 9);
    assert x == Filled(Filled(Filled(
      AppEntry(e.id, e.name, e.executablePath, e.prefixPath, e.iconPath, e.workingDirectory, e.sha256, e.version,
               e.createdAt, [], 0, 0), e, CpuLimit), e, MemoryLimit), e, ArgsField);
  }

  lemma {:induction false} MembersRead(e: AppEntry, k: nat, base: AppEntry, rest: string)
    requires k <= |FIELDS| && Writable(e) && (k < |FIELDS| ==> base.args == [])
    ensures ReadMembers(MembersText(e, k) + rest, base) == Read(FilledFrom(base, e, k), rest)
    decreases |FIELDS| - k
  {
    hide MemberText, ReadMembers, Indent, SkipSpace, Filled;
    if k == |FIELDS| {
      MembersEnd(base, rest);
      assert MembersText(e, k) + rest == Indent(4) + (['}'] + rest);
    } else {
      var more := MembersText(e, k + 1) + rest;
      Associates(MemberText(e, k), MembersText(e, k + 1), rest);
      if k + 1 == |FIELDS| {
        assert more == Indent(4) + (['}'] + rest);
        MembersEnd(base, rest);
      }
      MemberReads(e, k, base, more);
      assert k + 1 < |FIELDS| ==> FIELDS[k] != ArgsField;
      FilledArgs(base, e, FIELDS[k]);
      MembersRead(e, k + 1, Filled(base, e, FIELDS[k]), rest);
    }
  }

  lemma FilledArgs(base: AppEntry, e: AppEntry, f: Field)
    ensures f != ArgsField ==> Filled(base, e, f).args == base.args
  {
  }

  lemma MembersEnd(base: AppEntry, rest: string)
    ensures var s := Indent(4) + (['}'] + rest);
      && s != [] && SkipSpace(s) == SkipChar(SkipSpace(s), ',') && ReadMembers(s, base) == Read(base, rest)
  {
    var s := ['}'] + rest;
    assert s[1..] == rest;
    SpaceSkipped(Indent(4), s);
    ReadMembersSpace(Indent(4), s, base);
  }

  lemma ReadAppsSpace(space: string, s: string, apps: seq<AppEntry>)
    requires forall i :: 0 <= i < |space| ==> IsSpace(space[i])
    ensures ReadApps(space + s, apps) == ReadApps(s, apps)
  {
    hide ReadMembers, SkipSpace, SkipChar, IsUsable, IndexOf;
    SpaceSkipped(space, s);
  }

  // The applications that load_from_file keeps.
  function Usable(apps: seq<AppEntry>): seq<AppEntry> {
    if apps == [] then [] else (if IsUsable(apps[0]) then [apps[0]] else []) + Usable(apps[1..])
  }

  lemma AppReads(e: AppEntry, apps: seq<AppEntry>, rest: string)
    requires Writable(e)
    ensures ReadApps(AppText(e) + rest, apps) ==
            ReadApps(SkipChar(SkipSpace(rest), ','), if IsUsable(e) then apps + [e] else apps)
  {
    hide MembersText, FilledFrom, ReadMembers, IsUsable;
    var members := ['\n'] + (MembersText(e, 0) + rest);
    var s := ['{'] + members;
    assert AppText(e) + rest == Indent(4) + s;
    ReadAppsSpace(Indent(4), s, apps);
    assert s[1..] == members && IndexOf(s, '{') == 0;
    ReadMembersSpace(['\n'], MembersText(e, 0) + rest, BLANK);
    MembersRead(e, 0, BLANK, rest);
    AllFilled(e);
  }

  lemma {:induction false} AppsRead(apps: seq<AppEntry>, before: seq<AppEntry>)
    requires forall i :: 0 <= i < |apps| ==> Writable(apps[i])
    ensures var r := ReadApps(AppsText(apps) + Finish(), before); r.Read? && r.value == before + Usable(apps)
    decreases |apps|
  {
    hide AppText, IsUsable, Finish, ReadApps, SkipChar, SkipSpace;
    if apps == [] {
      assert AppsText(apps) + Finish() == Finish() && before + Usable(apps) == before;
      FinishReads(before);
    } else {
      var more := AppsText(apps[1..]) + Finish();
      if apps[1..] == [] { assert more == Finish(); }
      var separator := if |apps| > 1 then [',', '\n'] else ['\n'];
      assert AppsText(apps) + Finish() == AppText(apps[0]) + (separator + more);
      AppReads(apps[0], before, separator + more);
      var now := if IsUsable(apps[0]) then before + [apps[0]] else before;
      AppEnds(separator, more, now, |apps| == 1);
      AppsRead(apps[1..], now);
      UsableStep(apps, before);
    }
  }

  lemma UsableStep(apps: seq<AppEntry>, before: seq<AppEntry>)
    requires apps != []
    ensures before + Usable(apps) ==
            (if IsUsable(apps[0]) then before + [apps[0]] else before) + Usable(apps[1..])
  {
    hide IsUsable;
    Associates(before, [apps[0]], Usable(apps[1..]));
    assert [] + Usable(apps[1..]) == Usable(apps[1..]);
  }

  lemma Associates<T>(a: seq<T>, b: seq<T>, c: seq<T>)
    ensures a + (b + c) == a + b + c
  {
  }

  lemma FinishReads(before: seq<AppEntry>)
    ensures ReadApps(Finish(), before) == Read(before, [']', '\n', '}', '\n'])
  {
    var end := [']', '\n', '}', '\n'];
    assert Finish() == Indent(2) + end;
    ReadAppsSpace(Indent(2), end, before);
  }

  lemma AppEnds(separator: string, more: string, apps: seq<AppEntry>, last: bool)
    requires separator == (if last then ['\n'] else [',', '\n'])
    requires last ==> more == Finish()
    ensures ReadApps(SkipChar(SkipSpace(separator + more), ','), apps) == ReadApps(more, apps)
  {
    if last {
      var end := [']', '\n', '}', '\n'];
      assert separator + more == (['\n'] + Indent(2)) + end && more == Indent(2) + end;
      SpaceSkipped(['\n'] + Indent(2), end);
      ReadAppsSpace(Indent(2), end, apps);
    } else {
      assert (separator + more)[1..] == ['\n'] + more;
      ReadAppsSpace(['\n'], more, apps);
    }
  }

  lemma StartFound(rest: string)
    ensures Find(Start() + rest, AppsKey(), 0) == 20 < |Start() + rest| && |AppsKey()| == 6
    ensures (Start() + rest)[26..] == [':', ' ', '[', '\n'] + rest
  {
    var s := Start() + rest;
    assert |Start()| == 30 && |AppsKey()| == 6;
    assert OccursAt(s, AppsKey(), 20) by { assert s[20..26] == AppsKey(); }
    forall k: nat | k < 20 ensures !OccursAt(s, AppsKey(), k) {
      assert s[k] == Start()[k] && s[k + 1] == Start()[k + 1];
      if Start()[k] == '\"' { assert k == 4 || k == 12; }
      if OccursAt(s, AppsKey(), k) { OccursStarts(s, k); }
    }
    FoundFirst(s, AppsKey(), 0, 20);
  }

  lemma OccursStarts(s: string, k: nat)
    requires OccursAt(s, AppsKey(), k)
    ensures s[k] == '\"' && s[k + 1] == 'a'
  {
    assert s[k] == s[k..k + 6][0] && s[k + 1] == s[k..k + 6][1];
  }

  // Main result: loading what was saved gives back every application that can be kept, ...
  lemma LoadSave(apps: seq<AppEntry>)
    requires forall i :: 0 <= i < |apps| ==> Writable(apps[i])
    ensures Load(SaveText(apps)) == Apps(Usable(apps))
  {
    hide AppsText, Find, ReadApps, Start, Finish, AppsKey, IndexOf;
    var body := AppsText(apps) + Finish();
    assert SaveText(apps) == Start() + body;
    StartFound(body);
    BracketFound(body);
    ReadAppsSpace(['\n'], body, []);
    AppsRead(apps, []);
    assert [] + Usable(apps) == Usable(apps);
  }

  lemma BracketFound(body: string)
    ensures var t := [':', ' ', '[', '\n'] + body;
      && IndexOf(t, '[') == 2 && t[3..] == ['\n'] + body
  {
    var t := [':', ' ', '[', '\n'] + body;
    assert t[0] == ':' && t[1..][0] == ' ' && t[1..][1..] == t[2..] && t[2..][0] == '[';
    assert IndexOf(t[2..], '[') == 0 && IndexOf(t[1..], '[') == 1;
  }

  // ... and all of them exactly when all have a safe id and an executable.
  lemma {:induction false} UsableIsAll(apps: seq<AppEntry>)
    ensures |Usable(apps)| <= |apps|
    ensures Usable(apps) == apps <==> forall i :: 0 <= i < |apps| ==> IsUsable(apps[i])
  {
    hide IsUsable;
    if apps != [] {
      UsableIsAll(apps[1..]);
      if IsUsable(apps[0]) {
        assert apps == [apps[0]] + apps[1..];
        if Usable(apps) == apps { assert Usable(apps)[1..] == Usable(apps[1..]); }
      }
    }
  }

  lemma RoundTrip(apps: seq<AppEntry>)
    requires forall i :: 0 <= i < |apps| ==> Writable(apps[i])
    ensures Load(SaveText(apps)) == Apps(apps) <==> forall i :: 0 <= i < |apps| ==> IsUsable(apps[i])
  {
    LoadSave(apps);
    UsableIsAll(apps);
  }

  // ---------------------------------------------------------------- the loops

  method WriteArgs(args: seq<string>) returns (text: string)
    ensures text == ArgsText(args)
  {
    hide Quoted;
    text := [];
    assert args[0..] == args;
    for j := 0 to |args|
      invariant ArgsText(args) == text + ArgsText(args[j..])
    {
      assert args[j..][0] == args[j] && args[j..][1..] == args[j + 1..];
      ghost var before := text;
      var quoted := QuotedString(args[j]);
      text := text + quoted;
      if j + 1 < |args| {
        Associates(before, quoted + [',', ' '], ArgsText(args[j + 1..]));
        Associates(before, quoted, [',', ' ']);
        text := text + [',', ' '];
      }
    }
  }

  method QuotedString(s: string) returns (quoted: string)
    ensures quoted == Quoted(s)
  {
    var escaped := EscapeString(s);
    return ['\"'] + escaped + ['\"'];
  }

  method WriteValue(e: AppEntry, f: Field) returns (text: string)
    ensures text == ValueText(e, f)
  {
    match f {
      case CpuLimit => text := Decimal(e.cpuLimitSeconds);
      case MemoryLimit => text := Decimal(e.memoryLimitMib);
      case ArgsField =>
        var args := WriteArgs(e.args);
        text := ['['] + args + [']'];
      case _ => text := QuotedString(TextOf(e, f));
    }
  }

  method WriteApp(e: AppEntry) returns (text: string)
    ensures text == AppText(e)
  {
    hide Key, ValueText, Indent;
    text := Indent(4) + ['{', '\n'];
    for k := 0 to |FIELDS|
      invariant AppText(e) == text + MembersText(e, k)
    {
      var value := WriteValue(e, FIELDS[k]);
      var member := Indent(6) + ['\"'] + Key(FIELDS[k]) + ['\"', ':', ' '] + value
        + (if k + 1 < |FIELDS| then [',', '\n'] else ['\n']);
      Associates(text, member, MembersText(e, k + 1));
      text := text + member;
    }
    text := text + (Indent(4) + ['}']);
  }

  // The text save_to_file writes.
  method WriteCatalog(apps: seq<AppEntry>) returns (text: string)
    ensures text == SaveText(apps)
  {
    hide AppText, Start, Finish;
    text := Start();
    assert apps[0..] == apps;
    for i := 0 to |apps|
      invariant Start() + AppsText(apps) == text + AppsText(apps[i..])
    {
      assert apps[i..][0] == apps[i] && apps[i..][1..] == apps[i + 1..];
      var app := WriteApp(apps[i]);
      var separator := if i + 1 < |apps| then [',', '\n'] else ['\n'];
      Associates(text, app + separator, AppsText(apps[i + 1..]));
      text := text + (app + separator);
    }
    assert text == Start() + AppsText(apps);
    text := text + Finish();
  }

  method LoadArgs(src: string, before: seq<string>) returns (args: seq<string>, rest: string)
    ensures (args, rest) == ReadArgs(src, before)
  {
    hide ParseString;
    args, rest := before, src;
    while true
      invariant ReadArgs(src, before) == ReadArgs(rest, args)
      decreases |rest|
    {
      ghost var start := rest;
      rest := SkipWhitespace(rest);
      if rest == [] { return args, rest; }
      if rest[0] == ']' { return args, rest[1..]; }
      if rest[0] == ',' {
        rest := rest[1..];
        continue;
      }
      var value;
      value, rest := ParseJsonString(rest);
      if value.None? { return args, rest; }
      args := args + [value.value];
    }
  }

  method LoadValue(src: string, f: Option<Field>, before: AppEntry) returns (e: AppEntry, rest: string)
    ensures (e, rest) == ReadValue(src, f, before)
  {
    hide ParseString, ParseUint, ReadArgs;
    e, rest := before, src;
    match f {
      case Some(ArgsField) =>
        if rest != [] && rest[0] == '[' {
          var args;
          args, rest := LoadArgs(rest[1..], e.args);
          e := e.(args := args);
        }
      case Some(CpuLimit) =>
        var value;
        value, rest := ParseJsonUint64(rest);
        if value.Some? { e := e.(cpuLimitSeconds := value.value); }
      case Some(MemoryLimit) =>
        var value;
        value, rest := ParseJsonUint64(rest);
        if value.Some? { e := e.(memoryLimitMib := value.value); }
      case _ =>
        var value;
        value, rest := ParseJsonString(rest);
        if value.Some? { e := SetText(e, f, value.value); }
    }
  }

  // The loop over the members of one object. A key that is not closed before the end of the
  // text ends the reading as undefined.
  method LoadMembers(src: string) returns (reading: Reading<AppEntry>)
    ensures reading == ReadMembers(src, BLANK)
  {
    hide ParseString, ReadValue, FieldOf;
    var e, rest := BLANK, src;
    while true
      invariant ReadMembers(src, BLANK) == ReadMembers(rest, e)
      decreases |rest|
    {
      rest := SkipWhitespace(rest);
      if rest == [] { return Read(e, rest); }
      if rest[0] == '}' { return Read(e, rest[1..]); }
      var key;
      key, rest := ParseJsonString(rest);
      if key.None? {
        if rest == [] { return Undefined; }
        rest := rest[1..];
        continue;
      }
      rest := SkipWhitespace(rest);
      rest := SkipWhitespace(SkipChar(rest, ':'));
      e, rest := LoadValue(rest, FieldOf(key.value), e);
      rest := SkipWhitespace(rest);
      rest := SkipChar(rest, ',');
    }
  }

  method LoadApps(src: string) returns (reading: Reading<seq<AppEntry>>)
    ensures reading == ReadApps(src, [])
  {
    hide ReadMembers, IndexOf, IsUsable;
    var apps: seq<AppEntry>, rest := [], src;
    while true
      invariant ReadApps(src, []) == ReadApps(rest, apps)
      decreases |rest|
    {
      rest := SkipWhitespace(rest);
      if rest == [] || rest[0] == ']' { return Read(apps, rest); }
      var open := FindChar(rest, '{');
      if open == |rest| { return Read(apps, rest); }
      var item := LoadMembers(rest[open + 1..]);
      if item.Undefined? { return Undefined; }
      if IsUsable(item.value) { apps := apps + [item.value]; }
      rest := SkipWhitespace(item.rest);
      rest := SkipChar(rest, ',');
    }
  }

  method LoadText(content: string) returns (loaded: Loaded)
    ensures loaded == Load(content)
  {
    hide Find, IndexOf, ReadApps, AppsKey;
    var at := FindText(content, AppsKey(), 0);
    if at == |content| { return NotACatalog; }
    var t := content[at + |AppsKey()|..];
    var bracket := FindChar(t, '[');
    if bracket == |t| { return NotACatalog; }
    var list := LoadApps(t[bracket + 1..]);
    return if list.Undefined? then Unspecified else Apps(list.value);
  }

  // ---------------------------------------------------------------- the catalog

  function Without(apps: seq<AppEntry>, id: string): seq<AppEntry> {
    if apps == [] then []
    else Without(apps[..|apps| - 1], id) + if apps[|apps| - 1].id == id then [] else [apps[|apps| - 1]]
  }

  lemma {:induction false} WithoutKeepsOthers(apps: seq<AppEntry>, id: string)
    requires DistinctIds(apps)
    ensures DistinctIds(Without(apps, id))
    ensures forall a :: a in Without(apps, id) <==> a in apps && a.id != id
  {
    if apps != [] {
      var init, last := apps[..|apps| - 1], apps[|apps| - 1];
      WithoutKeepsOthers(init, id);
      assert apps == init + [last];
      var rest := Without(init, id);
      forall j | 0 <= j < |rest| ensures rest[j].id != last.id {
        assert rest[j] in init;
      }
    }
  }

  class AppCatalog {
    var apps: seq<AppEntry>

    // What add_app and remove_app keep.
    ghost predicate Valid()
      reads this
    {
      DistinctIds(apps) && forall i :: 0 <= i < |apps| ==> IsUsable(apps[i]) && Writable(apps[i])
    }

    constructor ()
      ensures Valid() && apps == []
    {
      apps := [];
    }

    // add_app: an entry with a known id replaces the old one in its place.
    method AddApp(app: AppEntry, now: string) returns (ok: bool)
      requires Valid() && Writable(app)
      modifies this
      ensures Valid() && (ok <==> IsUsable(app))
      ensures !ok ==> apps == old(apps)
      ensures ok ==> forall i :: 0 <= i < |old(apps)| && old(apps)[i].id == app.id ==> apps == old(apps)[i := app]
      ensures ok && (forall i :: 0 <= i < |old(apps)| ==> old(apps)[i].id != app.id) ==>
                apps == old(apps) + [app.(createdAt := if app.createdAt == [] then now else app.createdAt)]
    {
      if !IsSafeAppId(app.id) || app.executablePath == [] { return false; }
      hide IsSafeAppId;
      for i := 0 to |apps|
        invariant apps == old(apps) && forall j :: 0 <= j < i ==> apps[j].id != app.id
      {
        if apps[i].id == app.id {
          apps := apps[i := app];
          return true;
        }
      }
      var entry := app;
      if entry.createdAt == [] { entry := entry.(createdAt := now); }
      apps := apps + [entry];
      return true;
    }

    method RemoveApp(id: string) returns (ok: bool)
      requires Valid()
      modifies this
      ensures Valid() && apps == Without(old(apps), id)
      ensures ok <==> exists i :: 0 <= i < |old(apps)| && old(apps)[i].id == id
    {
      hide IsSafeAppId;
      var kept: seq<AppEntry> := [];
      ok := false;
      for i := 0 to |apps|
        invariant kept == Without(apps[..i], id) && (ok <==> exists j :: 0 <= j < i && apps[j].id == id)
      {
        assert apps[..i + 1][..i] == apps[..i];
        if apps[i].id == id { ok := true; } else { kept := kept + [apps[i]]; }
      }
      assert apps[..|apps|] == apps;
      WithoutKeepsOthers(apps, id);
      forall i | 0 <= i < |kept| ensures IsUsable(kept[i]) && Writable(kept[i]) {
        assert kept[i] in apps;
        var j :| 0 <= j < |apps| && apps[j] == kept[i];
      }
      apps := kept;
    }

    method SaveToFile() returns (text: string)
      ensures text == SaveText(apps)
    {
      text := WriteCatalog(apps);
    }

    // load_from_file, given what the file holds, if it can be opened.
    method LoadFromFile(content: Option<string>) returns (ok: bool)
      modifies this
      ensures content.None? ==> !ok && apps == []
      ensures content.Some? ==> match Load(content.value)
                case NotACatalog => !ok && apps == []
                case Apps(loaded) => ok && apps == loaded
                case Unspecified => true
    {
      apps := [];
      if content.None? { return false; }
      var loaded := LoadText(content.value);
      if !loaded.Apps? { return false; }
      apps := loaded.apps;
      return true;
    }

    // A catalog built by adding and removing reads back as it was.
    lemma SavedIsLoaded()
      requires Valid()
      ensures Load(SaveText(apps)) == Apps(apps)
    {
      RoundTrip(apps);
    }
  }
}
