// Export lookup through forwarder chains and module aliases (src/loader/module.cpp).
//
// The loader follows "DLL.Symbol" forwarders and tries a list of substitute modules for
// a few families of names. It carries a stack of the queries being resolved, to cut
// cycles, and a depth bound of 32. Resolve below has only the depth bound; the methods of
// ForwarderResolver have both, as the loader does, and are proved to give the same answer.
module Forwarder {
  import opened Ascii

  const MAX_FORWARDER_DEPTH: nat := 32

  datatype Support = Full | Limited | Stub

  type address = n: nat | n < 0x1_0000_0000_0000_0000

  datatype Export = Export(name: string, ordinal: nat, address: address, support: Support, forwarder: string)

  datatype Module = Module(name: string, exports: seq<Export>)

  datatype Query = Named(dll: string, symbol: string) | ByOrdinal(dll: string, ordinal: nat)

  // The fields of the loader's lookup result that decide what the caller does: a found
  // export, plain absence, or an error (not found, with a non-empty explanation).
  datatype Outcome = Found(entry: Export) | Absent | Error

  datatype Option<+T> = None | Some(value: T)

  // ---------------------------------------------------------------- the registry

  function FindModule(registry: seq<Module>, dll: string): Option<Module> {
    if registry == [] then None
    else if IEquals(registry[0].name, dll) then Some(registry[0])
    else FindModule(registry[1..], dll)
  }

  predicate Answers(e: Export, q: Query) {
    match q
    case Named(_, symbol) => e.name == symbol
    case ByOrdinal(_, ordinal) => e.ordinal == ordinal
  }

  function FindIn(exports: seq<Export>, q: Query): Option<Export> {
    if exports == [] then None
    else if Answers(exports[0], q) then Some(exports[0])
    else FindIn(exports[1..], q)
  }

  function FindExport(registry: seq<Module>, q: Query): Option<Export> {
    match FindModule(registry, q.dll)
    case None => None
    case Some(m) => FindIn(m.exports, q)
  }

  // ---------------------------------------------------------------- forwarder text

  // The index of the last '.' before position n, or -1.
  function LastDot(s: string, n: nat): int
    requires n <= |s|
  {
    if n == 0 then -1 else if s[n - 1] == '.' then n - 1 else LastDot(s, n - 1)
  }

  predicate AllDigits(s: string) { forall i :: 0 <= i < |s| ==> '0' <= s[i] <= '9' }

  function Digit(c: char): nat
    requires '0' <= c <= '9'
  {
    c as int - '0' as int
  }

  function DecimalValue(s: string): nat
    requires AllDigits(s)
  {
    if s == [] then 0 else 10 * DecimalValue(s[..|s| - 1]) + Digit(s[|s| - 1])
  }

  // The digit loop of parse_forwarder: value is checked before it can exceed 0xFFFF.
  method ParseOrdinal(digits: string) returns (result: Option<nat>)
    ensures result ==
      if digits != [] && AllDigits(digits) && 0 < DecimalValue(digits) <= 0xFFFF
      then Some(DecimalValue(digits)) else None
  {
    if |digits| == 0 { return None; }
    var value := 0;
    for index := 0 to |digits|
      invariant AllDigits(digits[..index])
      invariant value == DecimalValue(digits[..index]) <= 0xFFFF
    {
      var c := digits[index];
      if c < '0' || c > '9' { return None; }
      assert digits[..index + 1][..index] == digits[..index];
      if value > (0xFFFF - Digit(c)) / 10 {
        if AllDigits(digits) { DecimalGrows(digits, index + 1); }
        return None;
      }
      value := 10 * value + Digit(c);
    }
    assert digits[..|digits|] == digits;
    if value == 0 { return None; }
    return Some(value);
  }

  lemma {:induction false} DecimalGrows(s: string, n: nat)
    requires AllDigits(s) && n <= |s|
    ensures AllDigits(s[..n]) && DecimalValue(s[..n]) <= DecimalValue(s)
    decreases |s|
  {
    if n < |s| {
      DecimalGrows(s[..|s| - 1], n);
      assert s[..|s| - 1][..n] == s[..n];
    } else {
      assert s[..n] == s;
    }
  }

  // The query a forwarder text asks for. A module name without a dot gets ".dll".
  function ParseForwarder(s: string): Option<Query> {
    var dot := LastDot(s, |s|);
    if dot <= 0 || dot + 1 >= |s| then None
    else
      var name := s[..dot];
      var dll := if '.' in name then name else name + ".dll";
      var symbol := s[dot + 1..];
      if symbol[0] != '#' then Some(Named(dll, symbol))
      else
        var digits := symbol[1..];
        if digits != [] && AllDigits(digits) && 0 < DecimalValue(digits) <= 0xFFFF
        then Some(ByOrdinal(dll, DecimalValue(digits))) else None
  }

  // ---------------------------------------------------------------- module aliases

  predicate IsKernelbase(dll: string) {
    IEquals(dll, "kernelbase.dll") || IEquals(dll, "kernelbase")
  }

  predicate IsVcruntime(dll: string) {
    || IEquals(dll, "vcruntime140.dll") || IEquals(dll, "vcruntime140")
    || IEquals(dll, "vcruntime140_1.dll") || IEquals(dll, "vcruntime140_1")
    || IEquals(dll, "vcruntime140d.dll") || IEquals(dll, "msvcr120.dll")
    || IEquals(dll, "msvcr110.dll") || IEquals(dll, "msvcr100.dll")
    || IEquals(dll, "ucrtbase.dll") || IEquals(dll, "ucrtbase")
  }

  predicate IsApiSet(dll: string) {
    |dll| >= 11 && (StartsWithLower(dll, "api-ms-win-") || StartsWithLower(dll, "ext-ms-win-"))
  }

  // Which module an API-set family stands for; the first matching row counts.
  function PreferredTable(): seq<(string, string)> {
    [("api-ms-win-core-com-", "ole32.dll"),
     ("api-ms-win-core-", "KERNEL32.dll"), ("ext-ms-win-kernel32-", "KERNEL32.dll"),
     ("api-ms-win-appmodel-", "KERNEL32.dll"),
     ("api-ms-win-crt-", "msvcrt.dll"), ("api-ms-win-core-crt-", "msvcrt.dll"),
     ("api-ms-win-security-", "ADVAPI32.dll"), ("api-ms-win-eventing-", "ADVAPI32.dll"),
     ("api-ms-win-service-", "ADVAPI32.dll"),
     ("ext-ms-win-ntuser-", "USER32.dll"), ("ext-ms-win-gui-", "USER32.dll"),
     ("ext-ms-win-gdi-", "GDI32.dll"),
     ("api-ms-win-shcore-", "SHELL32.dll"), ("api-ms-win-shell-", "SHELL32.dll")]
  }

  function FirstPrefix(table: seq<(string, string)>, dll: string): string {
    if table == [] then ""
    else if StartsWithLower(dll, table[0].0) then table[0].1
    else FirstPrefix(table[1..], dll)
  }

  function PreferredModule(dll: string): string {
    FirstPrefix(PreferredTable(), dll)
  }

  function Candidates(): seq<string> {
    ["KERNEL32.dll", "USER32.dll", "GDI32.dll", "ADVAPI32.dll", "WS2_32.dll",
     "SHELL32.dll", "ole32.dll", "SHLWAPI.dll", "version.dll", "WINMM.dll",
     "COMCTL32.dll", "COMDLG32.dll", "IMM32.dll", "PSAPI.dll", "msvcrt.dll",
     "rpcrt4.dll", "dbghelp.dll"]
  }

  function Redirect(q: Query, dll: string): Query {
    if q.Named? then Named(dll, q.symbol) else ByOrdinal(dll, q.ordinal)
  }

  // The candidates from position k on that differ from the preferred module.
  function OtherCandidates(q: Query, preferred: string, k: nat): seq<Query>
    requires k <= |Candidates()|
    decreases |Candidates()| - k
  {
    if k == |Candidates()| then []
    else (if Candidates()[k] == preferred then [] else [Redirect(q, Candidates()[k])])
         + OtherCandidates(q, preferred, k + 1)
  }

  function KernelbaseFallback(q: Query): seq<Query> {
    if IsKernelbase(q.dll) then [Redirect(q, "KERNEL32.dll")] else []
  }

  function VcruntimeFallback(q: Query): seq<Query> {
    if IsVcruntime(q.dll) then [Redirect(q, "msvcrt.dll")] else []
  }

  function PreferredFallback(q: Query): seq<Query> {
    if PreferredModule(q.dll) != "" then [Redirect(q, PreferredModule(q.dll))] else []
  }

  function ApiSetFallbacks(q: Query): seq<Query> {
    if q.Named? && IsApiSet(q.dll)
    then PreferredFallback(q) + OtherCandidates(q, PreferredModule(q.dll), 0)
    else []
  }

  // Where a query goes when its own module does not export the symbol, in order.
  function Fallbacks(q: Query): seq<Query> {
    KernelbaseFallback(q) + VcruntimeFallback(q) + ApiSetFallbacks(q)
  }

  predicate IsRegistered(registry: seq<Module>, dll: string) { FindModule(registry, dll).Some? }

  function ApiSetProviders(): seq<string> {
    ["KERNEL32.dll", "USER32.dll", "GDI32.dll", "ADVAPI32.dll", "WS2_32.dll",
     "SHELL32.dll", "ole32.dll", "SHLWAPI.dll", "version.dll", "WINMM.dll",
     "COMCTL32.dll", "COMDLG32.dll", "IMM32.dll", "PSAPI.dll", "msvcrt.dll", "rpcrt4.dll"]
  }

  // Whether a module is known, counting the names that stand for other modules.
  predicate IsRegisteredForwarded(registry: seq<Module>, dll: string) {
    if IsRegistered(registry, dll) then true
    else if IsKernelbase(dll) then IsRegistered(registry, "KERNEL32.dll")
    else if IsVcruntime(dll) then IsRegistered(registry, "msvcrt.dll")
    else IsApiSet(dll) && exists p :: p in ApiSetProviders() && IsRegistered(registry, p)
  }

  // ---------------------------------------------------------------- the simple resolver

  // A forwarder whose target is absent is an error; everything else passes through.
  function Forwarded(r: Outcome): Outcome { if r.Absent? then Error else r }

  // Resolution with a depth bound and nothing else.
  function Resolve(registry: seq<Module>, q: Query, fuel: nat): Outcome
    decreases fuel, 0, 0
  {
    if fuel == 0 then Error
    else
      match FindExport(registry, q)
      case Some(e) =>
        if e.forwarder == "" then Found(e)
        else (match ParseForwarder(e.forwarder)
              case None => Error
              case Some(target) => Forwarded(Resolve(registry, target, fuel - 1)))
      case None => FirstAnswer(registry, Fallbacks(q), fuel - 1)
  }

  // The first outcome, in list order, that is not Absent.
  function FirstAnswer(registry: seq<Module>, queries: seq<Query>, fuel: nat): Outcome
    decreases fuel, 1, |queries|
  {
    if queries == [] then Absent
    else
      var r := Resolve(registry, queries[0], fuel);
      if r.Absent? then FirstAnswer(registry, queries[1..], fuel) else r
  }

  // ---------------------------------------------------------------- facts about Resolve

  predicate SameQuery(a: Query, b: Query) {
    IEquals(a.dll, b.dll) &&
    match (a, b)
    case (Named(_, s), Named(_, t)) => s == t
    case (ByOrdinal(_, m), ByOrdinal(_, n)) => m == n
    case _ => false
  }

  lemma {:induction false} FindModuleFolds(registry: seq<Module>, a: string, b: string)
    requires IEquals(a, b)
    ensures FindModule(registry, a) == FindModule(registry, b)
  {
    if registry != [] {
      FindModuleFolds(registry[1..], a, b);
      IEqualsTransitive(a, b, registry[0].name);
      IEqualsTransitive(b, a, registry[0].name);
      if IEquals(a, registry[0].name) { IEqualsTransitive(a, registry[0].name, a); }
      if IEquals(b, registry[0].name) { IEqualsTransitive(b, registry[0].name, b); }
      if IEquals(registry[0].name, a) { IEqualsTransitive(registry[0].name, a, b); }
      if IEquals(registry[0].name, b) { IEqualsTransitive(registry[0].name, b, a); }
    }
  }

  lemma {:induction false} FindInFolds(exports: seq<Export>, a: Query, b: Query)
    requires SameQuery(a, b)
    ensures FindIn(exports, a) == FindIn(exports, b)
  {
    if exports != [] { FindInFolds(exports[1..], a, b); }
  }

  lemma IEqualsFolds(a: string, b: string, name: string)
    requires IEquals(a, b)
    ensures IEquals(a, name) == IEquals(b, name)
  {
    IEqualsTransitive(a, b, name);
  }

  lemma AliasNamesFold(a: string, b: string)
    requires IEquals(a, b)
    ensures IsKernelbase(a) == IsKernelbase(b)
    ensures IsVcruntime(a) == IsVcruntime(b)
  {
    hide IEquals;
    forall name ensures IEquals(a, name) == IEquals(b, name) { IEqualsFolds(a, b, name); }
  }

  lemma ApiSetFolds(a: string, b: string)
    requires IEquals(a, b)
    ensures IsApiSet(a) == IsApiSet(b)
  {
  }

  lemma {:induction false} FirstPrefixFolds(table: seq<(string, string)>, a: string, b: string)
    requires IEquals(a, b)
    ensures FirstPrefix(table, a) == FirstPrefix(table, b)
  {
    if table != [] { FirstPrefixFolds(table[1..], a, b); }
  }

  lemma {:induction false} OtherCandidatesFold(a: Query, b: Query, preferred: string, k: nat)
    requires SameQuery(a, b) && k <= |Candidates()|
    ensures OtherCandidates(a, preferred, k) == OtherCandidates(b, preferred, k)
    decreases |Candidates()| - k
  {
    if k < |Candidates()| { OtherCandidatesFold(a, b, preferred, k + 1); }
  }

  // Letter case of the module name never matters.
  lemma ResolveFolds(registry: seq<Module>, a: Query, b: Query, fuel: nat)
    requires SameQuery(a, b)
    ensures Resolve(registry, a, fuel) == Resolve(registry, b, fuel)
  {
    FindModuleFolds(registry, a.dll, b.dll);
    match FindModule(registry, a.dll) {
      case None =>
      case Some(m) => FindInFolds(m.exports, a, b);
    }
    AliasNamesFold(a.dll, b.dll);
    ApiSetFolds(a.dll, b.dll);
    FirstPrefixFolds(PreferredTable(), a.dll, b.dll);
    hide PreferredTable, IsKernelbase, IsVcruntime, IsApiSet, Candidates, ParseForwarder;
    OtherCandidatesFold(a, b, PreferredModule(a.dll), 0);
  }

  // With less fuel the outcome is the same, or an error.
  lemma {:induction false} LessFuel(registry: seq<Module>, q: Query, less: nat, fuel: nat)
    requires less <= fuel
    ensures Resolve(registry, q, less) == Resolve(registry, q, fuel) || Resolve(registry, q, less) == Error
    decreases less, 0, 0
  {
    hide Fallbacks, ParseForwarder, FindExport;
    if less != 0 {
      match FindExport(registry, q) {
        case Some(e) =>
          match ParseForwarder(e.forwarder) {
            case None =>
            case Some(target) => LessFuel(registry, target, less - 1, fuel - 1);
          }
        case None => LessFuelFirst(registry, Fallbacks(q), less - 1, fuel - 1);
      }
    }
  }

  lemma {:induction false} LessFuelFirst(registry: seq<Module>, queries: seq<Query>, less: nat, fuel: nat)
    requires less <= fuel
    ensures FirstAnswer(registry, queries, less) == FirstAnswer(registry, queries, fuel)
            || FirstAnswer(registry, queries, less) == Error
    decreases less, 1, |queries|
  {
    if queries != [] {
      LessFuel(registry, queries[0], less, fuel);
      LessFuelFirst(registry, queries[1..], less, fuel);
    }
  }

  // The depth bound only ever turns answers into errors: an outcome within the bound that
  // is not an error is the outcome of resolution under every larger bound.
  lemma DepthBoundOnlyAddsErrors(registry: seq<Module>, q: Query, fuel: nat)
    requires MAX_FORWARDER_DEPTH <= fuel
    ensures Resolve(registry, q, MAX_FORWARDER_DEPTH) != Error ==>
              Resolve(registry, q, fuel) == Resolve(registry, q, MAX_FORWARDER_DEPTH)
  {
    LessFuel(registry, q, MAX_FORWARDER_DEPTH, fuel);
  }

  // A found export never forwards, and some registered module exports it.
  lemma {:induction false} FoundIsRegistered(registry: seq<Module>, q: Query, fuel: nat)
    requires Resolve(registry, q, fuel).Found?
    ensures var e := Resolve(registry, q, fuel).entry;
      e.forwarder == "" && exists m :: m in registry && e in m.exports
    decreases fuel, 0, 0
  {
    hide Fallbacks, ParseForwarder, FindExport;
    match FindExport(registry, q) {
      case Some(e) =>
        if e.forwarder == "" { FindExportIsMember(registry, q); }
        else { FoundIsRegistered(registry, ParseForwarder(e.forwarder).value, fuel - 1); }
      case None => FoundFirstIsRegistered(registry, Fallbacks(q), fuel - 1);
    }
  }

  lemma {:induction false} FoundFirstIsRegistered(registry: seq<Module>, queries: seq<Query>, fuel: nat)
    requires FirstAnswer(registry, queries, fuel).Found?
    ensures var e := FirstAnswer(registry, queries, fuel).entry;
      e.forwarder == "" && exists m :: m in registry && e in m.exports
    decreases fuel, 1, |queries|
  {
    if Resolve(registry, queries[0], fuel).Absent? { FoundFirstIsRegistered(registry, queries[1..], fuel); }
    else { FoundIsRegistered(registry, queries[0], fuel); }
  }

  lemma {:induction false} FindModuleIsMember(registry: seq<Module>, dll: string)
    requires FindModule(registry, dll).Some?
    ensures FindModule(registry, dll).value in registry
    ensures IEquals(FindModule(registry, dll).value.name, dll)
  {
    if !IEquals(registry[0].name, dll) { FindModuleIsMember(registry[1..], dll); }
  }

  lemma {:induction false} FindInIsMember(exports: seq<Export>, q: Query)
    requires FindIn(exports, q).Some?
    ensures FindIn(exports, q).value in exports && Answers(FindIn(exports, q).value, q)
  {
    if !Answers(exports[0], q) { FindInIsMember(exports[1..], q); }
  }

  lemma FindExportIsMember(registry: seq<Module>, q: Query)
    requires FindExport(registry, q).Some?
    ensures exists m :: m in registry && IEquals(m.name, q.dll) && FindExport(registry, q).value in m.exports
  {
    FindModuleIsMember(registry, q.dll);
    FindInIsMember(FindModule(registry, q.dll).value.exports, q);
  }

  // ---------------------------------------------------------------- why cutting cycles is harmless

  // Resolving q with this much fuel asks for next, everything tried before it being absent.
  ghost predicate Asks(registry: seq<Module>, q: Query, next: Query, fuel: nat)
    requires fuel > 0
  {
    match FindExport(registry, q)
    case Some(e) => e.forwarder != "" && ParseForwarder(e.forwarder) == Some(next)
    case None => AsksAmong(registry, Fallbacks(q), next, fuel - 1)
  }

  ghost predicate AsksAmong(registry: seq<Module>, queries: seq<Query>, next: Query, fuel: nat) {
    exists k :: AsksFallback(registry, queries, next, fuel, k)
  }

  predicate AsksFallback(registry: seq<Module>, queries: seq<Query>, next: Query, fuel: nat, k: int) {
    0 <= k < |queries| && queries[k] == next && FirstAnswer(registry, queries[..k], fuel).Absent?
  }

  lemma {:induction false} FirstAnswerSplits(registry: seq<Module>, a: seq<Query>, b: seq<Query>, fuel: nat)
    ensures FirstAnswer(registry, a + b, fuel) ==
      if FirstAnswer(registry, a, fuel).Absent? then FirstAnswer(registry, b, fuel) else FirstAnswer(registry, a, fuel)
    decreases |a|
  {
    if a == [] {
      assert a + b == b;
    } else {
      assert (a + b)[0] == a[0] && (a + b)[1..] == a[1..] + b;
      FirstAnswerSplits(registry, a[1..], b, fuel);
    }
  }

  // An error anywhere below is an error at the top.
  lemma ErrorsPropagate(registry: seq<Module>, q: Query, next: Query, fuel: nat)
    requires fuel > 0 && Asks(registry, q, next, fuel)
    requires Resolve(registry, next, fuel - 1) == Error
    ensures Resolve(registry, q, fuel) == Error
  {
    hide Fallbacks, ParseForwarder, FindExport;
    if FindExport(registry, q).None? {
      var all := Fallbacks(q);
      var k :| AsksFallback(registry, all, next, fuel - 1, k);
      assert all == all[..k] + all[k..];
      FirstAnswerSplits(registry, all[..k], all[k..], fuel - 1);
    }
  }

  // Lower down the same question is asked again, unless resolution has failed by then.
  lemma AsksAgain(registry: seq<Module>, q: Query, next: Query, less: nat, fuel: nat)
    requires 0 < less <= fuel && Asks(registry, q, next, fuel)
    ensures Asks(registry, q, next, less) || Resolve(registry, q, less) == Error
  {
    hide Fallbacks, ParseForwarder, FindExport;
    if FindExport(registry, q).None? {
      var all := Fallbacks(q);
      var k :| AsksFallback(registry, all, next, fuel - 1, k);
      assert all == all[..k] + all[k..];
      LessFuelFirst(registry, all[..k], less - 1, fuel - 1);
      FirstAnswerSplits(registry, all[..k], all[k..], less - 1);
      assert FirstAnswer(registry, all[..k], less - 1).Absent? ==> AsksFallback(registry, all, next, less - 1, k);
    }
  }

  // A path of questions, the first asked with this much fuel.
  ghost predicate Chain(registry: seq<Module>, path: seq<Query>, fuel: int) {
    |path| <= fuel + 1 &&
    forall i :: 0 <= i < |path| - 1 ==> Asks(registry, path[i], path[i + 1], fuel - i)
  }

  lemma NoFuelFails(registry: seq<Module>, q: Query)
    ensures Resolve(registry, q, 0) == Error
  {
  }

  // Along a path, if the last question fails with the fuel left there, so does the first.
  lemma {:induction false} ChainFails(registry: seq<Module>, path: seq<Query>, less: nat, fuel: nat)
    requires path != [] && Chain(registry, path, fuel) && less <= fuel
    requires less + 1 >= |path| ==> Resolve(registry, path[|path| - 1], less + 1 - |path|) == Error
    ensures Resolve(registry, path[0], less) == Error
    decreases |path|
  {
    hide Resolve, SameQuery, Asks;
    if less == 0 {
      NoFuelFails(registry, path[0]);
    } else if |path| > 1 {
      assert Asks(registry, path[0], path[1], fuel - 0);
      var rest := path[1..];
      forall i | 0 <= i < |rest| - 1 ensures Asks(registry, rest[i], rest[i + 1], fuel - 1 - i) {
        assert Asks(registry, path[i + 1], path[i + 1 + 1], fuel - (i + 1));
      }
      ChainFails(registry, rest, less - 1, fuel - 1);
      AsksAgain(registry, path[0], path[1], less, fuel);
      if Asks(registry, path[0], path[1], less) { ErrorsPropagate(registry, path[0], path[1], less); }
    }
  }

  // A query that leads back to itself is an error with any amount of fuel up to the one
  // the cycle was found with.
  lemma {:induction false} CycleFails(registry: seq<Module>, path: seq<Query>, less: nat, fuel: nat)
    requires |path| > 1 && Chain(registry, path, fuel) && SameQuery(path[0], path[|path| - 1]) && less <= fuel
    ensures Resolve(registry, path[0], less) == Error
    decreases less
  {
    hide Resolve, SameQuery, Asks;
    if less + 1 >= |path| {
      CycleFails(registry, path, less + 1 - |path|, fuel);
      ResolveFolds(registry, path[0], path[|path| - 1], less + 1 - |path|);
    }
    ChainFails(registry, path, less, fuel);
  }

  lemma RevisitIsError(registry: seq<Module>, visits: seq<Query>, q: Query, i: nat)
    requires i < |visits| <= MAX_FORWARDER_DEPTH && SameQuery(visits[i], q)
    requires Chain(registry, visits + [q], MAX_FORWARDER_DEPTH)
    ensures Resolve(registry, q, MAX_FORWARDER_DEPTH - |visits|) == Error
  {
    hide Resolve, SameQuery, Asks;
    var path := (visits + [q])[i..];
    var fuel := MAX_FORWARDER_DEPTH - i;
    forall k | 0 <= k < |path| - 1 ensures Asks(registry, path[k], path[k + 1], fuel - k) {
      var whole := visits + [q];
      assert Asks(registry, whole[i + k], whole[i + k + 1], MAX_FORWARDER_DEPTH - (i + k));
    }
    CycleFails(registry, path, MAX_FORWARDER_DEPTH - |visits|, fuel);
    ResolveFolds(registry, visits[i], q, MAX_FORWARDER_DEPTH - |visits|);
  }

  // ---------------------------------------------------------------- the loader's resolver

  datatype ExportLookup = ExportLookup(found: bool, entry: Export, detail: string)

  const NO_EXPORT := Export("", 0, 0, Full, "")

  function ToOutcome(l: ExportLookup): Outcome {
    if l.found then Found(l.entry) else if l.detail == "" then Absent else Error
  }

  class ForwarderResolver {
    const registry: seq<Module>
    // The queries being resolved, outermost first.
    var visits: seq<Query>

    constructor (registry: seq<Module>)
      ensures this.registry == registry && visits == []
    {
      this.registry := registry;
      visits := [];
    }

    ghost predicate NoRepeats()
      reads this
    {
      forall i, j :: 0 <= i < j < |visits| ==> !SameQuery(visits[i], visits[j])
    }

    // What a call at this depth may rely on: the stack is as long as the call is deep, it
    // repeats nothing, and it is the trail of questions that led to q.
    ghost predicate Pending(q: Query, depth: nat)
      reads this
    {
      |visits| == depth <= MAX_FORWARDER_DEPTH && NoRepeats() && Chain(registry, visits + [q], MAX_FORWARDER_DEPTH)
    }

    method HasVisit(q: Query) returns (found: bool)
      ensures found <==> exists i :: 0 <= i < |visits| && SameQuery(visits[i], q)
    {
      for i := 0 to |visits|
        invariant forall k :: 0 <= k < i ==> !SameQuery(visits[k], q)
      {
        if SameQuery(visits[i], q) { return true; }
      }
      return false;
    }

    method FindDirect(q: Query) returns (lookup: ExportLookup)
      ensures lookup.found <==> FindExport(registry, q).Some?
      ensures lookup.found ==> lookup.entry == FindExport(registry, q).value
      ensures !lookup.found ==> lookup.detail == ""
    {
      match FindExport(registry, q) {
        case None => lookup := ExportLookup(false, NO_EXPORT, "");
        case Some(e) => lookup := ExportLookup(true, e, "");
      }
    }

    // resolve_forwarder_named and resolve_forwarder_ordinal: the ordinal form is the
    // named form without the API-set part, which q.Named? guards here.
    method ResolveForwarder(q: Query, depth: nat) returns (lookup: ExportLookup)
      requires Pending(q, depth)
      modifies this
      ensures visits == old(visits)
      ensures ToOutcome(lookup) == Resolve(registry, q, MAX_FORWARDER_DEPTH - depth)
      decreases MAX_FORWARDER_DEPTH - depth, 1
    {
      if depth >= MAX_FORWARDER_DEPTH { return ExportLookup(false, NO_EXPORT, "forwarder depth exceeded"); }
      var revisited := HasVisit(q);
      if revisited {
        var i: nat :| i < |visits| && SameQuery(visits[i], q);
        RevisitIsError(registry, visits, q, i);
        return ExportLookup(false, NO_EXPORT, "forwarder cycle detected");
      }
      visits := visits + [q];
      lookup := Visit(q, depth);
      visits := visits[..|visits| - 1];
    }

    // The body of the resolver, with q on top of the stack.
    method Visit(q: Query, depth: nat) returns (lookup: ExportLookup)
      requires depth < MAX_FORWARDER_DEPTH && |visits| == depth + 1 && visits[depth] == q && NoRepeats()
      requires Chain(registry, visits, MAX_FORWARDER_DEPTH)
      modifies this
      ensures visits == old(visits)
      ensures ToOutcome(lookup) == Resolve(registry, q, MAX_FORWARDER_DEPTH - depth)
      decreases MAX_FORWARDER_DEPTH - depth, 0
    {
      hide ParseForwarder, FindExport, Fallbacks;
      ghost var left := MAX_FORWARDER_DEPTH - depth - 1;
      var direct := FindDirect(q);
      if direct.found {
        if direct.entry.forwarder == "" { return direct; }
        var target := ParseForwarder(direct.entry.forwarder);
        if target.None? { return ExportLookup(false, NO_EXPORT, "invalid export forwarder"); }
        assert Asks(registry, q, target.value, left + 1);
        ExtendChain(registry, visits, target.value, left + 1);
        lookup := ResolveForwarder(target.value, depth + 1);
        if !lookup.found && lookup.detail == "" {
          lookup := lookup.(detail := "forwarder target not found");
        }
        return;
      }
      lookup := VisitFallbacks(q, depth, direct);
    }

    // The part of the body that runs when the module itself does not export the symbol:
    // the substitutes are tried in order until one is not simply absent.
    method VisitFallbacks(q: Query, depth: nat, direct: ExportLookup) returns (lookup: ExportLookup)
      requires depth < MAX_FORWARDER_DEPTH && |visits| == depth + 1 && visits[depth] == q && NoRepeats()
      requires Chain(registry, visits, MAX_FORWARDER_DEPTH)
      requires FindExport(registry, q).None? && ToOutcome(direct).Absent?
      modifies this
      ensures visits == old(visits)
      ensures ToOutcome(lookup) == Resolve(registry, q, MAX_FORWARDER_DEPTH - depth)
      decreases MAX_FORWARDER_DEPTH - depth - 1, 2
    {
      hide ParseForwarder, FindExport, Fallbacks;
      ghost var left := MAX_FORWARDER_DEPTH - depth - 1;
      var queries := Fallbacks(q);
      for k := 0 to |queries|
        invariant visits == old(visits) && NoRepeats()
        invariant FirstAnswer(registry, queries[..k], left).Absent?
      {
        assert AsksFallback(registry, queries, queries[k], left, k);
        ExtendChain(registry, visits, queries[k], left + 1);
        lookup := ResolveForwarder(queries[k], depth + 1);
        assert queries[..k + 1] == queries[..k] + [queries[k]];
        FirstAnswerSplits(registry, queries[..k], [queries[k]], left);
        if lookup.found || lookup.detail != "" {
          FirstAnswerSplits(registry, queries[..k], queries[k..], left);
          assert queries == queries[..k] + queries[k..];
          return;
        }
      }
      assert queries[..|queries|] == queries;
      return direct;
    }
  }

  lemma ExtendChain(registry: seq<Module>, visits: seq<Query>, next: Query, fuel: nat)
    requires 0 < |visits| <= MAX_FORWARDER_DEPTH && Chain(registry, visits, MAX_FORWARDER_DEPTH)
    requires fuel == MAX_FORWARDER_DEPTH + 1 - |visits| && Asks(registry, visits[|visits| - 1], next, fuel)
    ensures Chain(registry, visits + [next], MAX_FORWARDER_DEPTH)
  {
    hide Asks;
    var path := visits + [next];
    forall i | 0 <= i < |path| - 1 ensures Asks(registry, path[i], path[i + 1], MAX_FORWARDER_DEPTH - i) {
      if i < |visits| - 1 { assert Asks(registry, visits[i], visits[i + 1], MAX_FORWARDER_DEPTH - i); }
    }
  }

  // find_export_forwarded and find_export_by_ordinal_forwarded, on every registry and query.
  method FindExportForwarded(registry: seq<Module>, q: Query) returns (lookup: ExportLookup)
    ensures ToOutcome(lookup) == Resolve(registry, q, MAX_FORWARDER_DEPTH)
  {
    var resolver := new ForwarderResolver(registry);
    lookup := resolver.ResolveForwarder(q, 0);
  }

  // ---------------------------------------------------------------- registration

  class ModuleRegistry {
    var modules: seq<Module>

    // Names are distinct up to case, and a forwarder has no address of its own.
    ghost predicate Valid()
      reads this
    {
      && (forall i, j :: 0 <= i < j < |modules| ==> !IEquals(modules[i].name, modules[j].name))
      && (forall m, e :: m in modules && e in m.exports && e.forwarder != "" ==> e.address == 0)
    }

    constructor ()
      ensures Valid() && modules == []
    {
      modules := [];
    }

    method RegisterModule(m: Module) returns (registered: bool)
      requires Valid()
      modifies this
      ensures Valid()
      ensures registered <==> FindModule(old(modules), m.name).None?
                              && forall e :: e in m.exports && e.forwarder != "" ==> e.address == 0
      ensures modules == if registered then old(modules) + [m] else old(modules)
    {
      if FindModule(modules, m.name).Some? { return false; }
      for k := 0 to |m.exports|
        invariant forall e :: e in m.exports[..k] && e.forwarder != "" ==> e.address == 0
      {
        if m.exports[k].forwarder != "" && m.exports[k].address != 0 {
          assert m.exports[k] in m.exports;
          return false;
        }
      }
      assert m.exports[..|m.exports|] == m.exports;
      NoneMeansAbsent(modules, m.name);
      modules := modules + [m];
      return true;
    }

    method ClearModules()
      modifies this
      ensures Valid() && modules == []
    {
      modules := [];
    }
  }

  lemma {:induction false} NoneMeansAbsent(registry: seq<Module>, dll: string)
    ensures FindModule(registry, dll).None? <==> forall m :: m in registry ==> !IEquals(m.name, dll)
  {
    if registry != [] {
      NoneMeansAbsent(registry[1..], dll);
      assert forall m :: m in registry <==> m == registry[0] || m in registry[1..];
    }
  }
}
