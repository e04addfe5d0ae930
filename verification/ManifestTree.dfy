// The package manifest as a tree, and the stack machine by which AppxManifestParser
// (src/package/msix.cpp) reads it from a sequence of tags.
module ManifestTree {

  datatype Option<+T> = None | Some(value: T)

  const MAX_DEPTH: nat := 128

  datatype Attribute = Attribute(name: string, value: string)

  // blank: the text is white space.
  datatype Token =
    | Start(name: string, attributes: seq<Attribute>, selfClosing: bool)
    | End(name: string)
    | Text(blank: bool)
    | Skipped

  datatype Application = Application(id: string, executable: string, entryPoint: string, displayName: string)

  datatype Info = Info(
    packageName: string, publisher: string, version: string, mainExecutable: Option<string>,
    applications: seq<Application>)

  const NO_INFO := Info([], [], [], None, [])

  // app: the application this element belongs to.
  datatype Node = Node(name: string, app: Option<nat>)

  datatype State = State(stack: seq<Node>, rootName: Option<string>, closed: bool, info: Info)

  const START := State([], None, false, NO_INFO)

  // ---------------------------------------------------------------- names and attributes

  // What follows the last colon.
  function LocalName(q: string): string {
    if q == [] || q[|q| - 1] == ':' then [] else LocalName(q[..|q| - 1]) + [q[|q| - 1]]
  }

  // The first attribute of this local name.
  function ValueOf(attributes: seq<Attribute>, name: string): Option<string> {
    if attributes == [] then None
    else if LocalName(attributes[0].name) == name then Some(attributes[0].value)
    else ValueOf(attributes[1..], name)
  }

  function Or(value: Option<string>, otherwise: string): string { if value.Some? then value.value else otherwise }

  predicate IsIdentity(name: string) { LocalName(name) == "Identity" }
  predicate IsApplication(name: string) { LocalName(name) == "Application" }
  predicate IsVisualElements(name: string) { LocalName(name) == "VisualElements" }

  function ApplicationOf(attributes: seq<Attribute>): Application {
    Application(Or(ValueOf(attributes, "Id"), []), Or(ValueOf(attributes, "Executable"), []),
                Or(ValueOf(attributes, "EntryPoint"), []), [])
  }

  // An Application element counts when it has an executable or an id.
  predicate IsRecorded(name: string, attributes: seq<Attribute>) {
    IsApplication(name) && (ApplicationOf(attributes).executable != [] || ApplicationOf(attributes).id != [])
  }

  // What a start tag adds, given the application it lies in.
  function Noted(info: Info, name: string, attributes: seq<Attribute>, app: Option<nat>): Info {
    if IsIdentity(name) then
      info.(packageName := Or(ValueOf(attributes, "Name"), info.packageName),
            publisher := Or(ValueOf(attributes, "Publisher"), info.publisher),
            version := Or(ValueOf(attributes, "Version"), info.version))
    else if IsRecorded(name, attributes) then
      var a := ApplicationOf(attributes);
      info.(mainExecutable :=
              if info.mainExecutable.None? && a.executable != [] then Some(a.executable) else info.mainExecutable,
            applications := info.applications + [a])
    else if IsVisualElements(name) && app.Some? && app.value < |info.applications|
            && ValueOf(attributes, "DisplayName").Some? then
      info.(applications := info.applications[app.value :=
              info.applications[app.value].(displayName := ValueOf(attributes, "DisplayName").value)])
    else info
  }

  // The application the contents of an element lie in: itself, if it is a recorded one.
  function Inside(info: Info, name: string, attributes: seq<Attribute>, app: Option<nat>): Option<nat> {
    if IsRecorded(name, attributes) then Some(|info.applications|) else app
  }

  // ---------------------------------------------------------------- the stack machine

  function TopApp(stack: seq<Node>): Option<nat> { if stack == [] then None else stack[|stack| - 1].app }

  function Step(s: State, t: Token): Option<State> {
    match t
    case Skipped => Some(s)
    case Text(blank) => if s.closed && !blank then None else Some(s)
    case End(name) =>
      if s.stack == [] || s.stack[|s.stack| - 1].name != name then None
      else Some(s.(stack := s.stack[..|s.stack| - 1], closed := s.closed || |s.stack| == 1))
    case Start(name, attributes, selfClosing) =>
      if s.closed || |s.stack| >= MAX_DEPTH || (s.stack == [] && s.rootName.Some?) then None
      else
        var app := TopApp(s.stack);
        Some(State(
          if selfClosing then s.stack else s.stack + [Node(name, Inside(s.info, name, attributes, app))],
          if s.stack == [] then Some(LocalName(name)) else s.rootName,
          selfClosing && s.stack == [],
          Noted(s.info, name, attributes, app)))
  }

  function Run(s: State, tokens: seq<Token>): Option<State>
    decreases |tokens|
  {
    if tokens == [] then Some(s)
    else
      var next := Step(s, tokens[0]);
      if next.None? then None else Run(next.value, tokens[1..])
  }

  function Accept(s: Option<State>): Option<Info> {
    if s.Some? && s.value.closed && s.value.stack == [] && s.value.rootName == Some("Package") then Some(s.value.info)
    else None
  }

  // ---------------------------------------------------------------- trees

  datatype Element = Element(name: string, attributes: seq<Attribute>, selfClosing: bool, children: Elements)

  // Siblings; the last one is at hand.
  datatype Elements = Nothing | And(before: Elements, last: Element)

  // The tags of an element. One that closes itself has no contents.
  function Spell(e: Element): seq<Token> {
    if e.selfClosing then [Start(e.name, e.attributes, true)]
    else [Start(e.name, e.attributes, false)] + SpellAll(e.children) + [End(e.name)]
  }

  function SpellAll(es: Elements): seq<Token> {
    match es
    case Nothing => []
    case And(before, last) => SpellAll(before) + Spell(last)
  }

  function Depth(e: Element): nat { 1 + if e.selfClosing then 0 else DepthAll(e.children) }

  function DepthAll(es: Elements): nat {
    match es
    case Nothing => 0
    case And(before, last) => if DepthAll(before) > Depth(last) then DepthAll(before) else Depth(last)
  }

  // Reading a tree: each element is noted with the application it lies in, in document order.
  function ReadElement(e: Element, app: Option<nat>, info: Info): Info {
    var noted := Noted(info, e.name, e.attributes, app);
    if e.selfClosing then noted else ReadAll(e.children, Inside(info, e.name, e.attributes, app), noted)
  }

  function ReadAll(es: Elements, app: Option<nat>, info: Info): Info {
    match es
    case Nothing => info
    case And(before, last) => ReadElement(last, app, ReadAll(before, app, info))
  }

  // ---------------------------------------------------------------- from trees to runs

  lemma {:induction false} RunOver(s: State, a: seq<Token>, b: seq<Token>)
    ensures Run(s, a + b) == if Run(s, a).None? then None else Run(Run(s, a).value, b)
    decreases |a|
  {
    hide Step;
    if a == [] { assert a + b == b; }
    else {
      assert (a + b)[0] == a[0] && (a + b)[1..] == a[1..] + b;
      if Step(s, a[0]).Some? { RunOver(Step(s, a[0]).value, a[1..], b); }
    }
  }

  lemma RunOne(s: State, t: Token)
    ensures Run(s, [t]) == Step(s, t)
  {
    assert [t][1..] == [];
  }

  // After an element that lies in others: only what is known has changed.
  function After(s: State, e: Element): State { s.(info := ReadElement(e, TopApp(s.stack), s.info)) }

  function AfterAll(s: State, es: Elements): State { s.(info := ReadAll(es, TopApp(s.stack), s.info)) }

  lemma {:induction false} RunInner(s: State, e: Element)
    requires !s.closed && s.stack != [] && |s.stack| <= MAX_DEPTH
    ensures Run(s, Spell(e)) == if |s.stack| + Depth(e) <= MAX_DEPTH then Some(After(s, e)) else None
    decreases e
  {
    hide Noted, Inside;
    var start := Start(e.name, e.attributes, e.selfClosing);
    RunOne(s, start);
    if !e.selfClosing {
      var all := SpellAll(e.children);
      assert Spell(e) == [start] + (all + [End(e.name)]);
      RunOver(s, [start], all + [End(e.name)]);
      if |s.stack| < MAX_DEPTH {
        var inner := Step(s, start).value;
        RunOver(inner, all, [End(e.name)]);
        RunInnerAll(inner, e.children);
        if |inner.stack| + DepthAll(e.children) <= MAX_DEPTH {
          RunOne(AfterAll(inner, e.children), End(e.name));
          assert inner.stack[..|s.stack|] == s.stack;
        }
      }
    }
  }

  lemma {:induction false} RunInnerAll(s: State, es: Elements)
    requires !s.closed && s.stack != [] && |s.stack| <= MAX_DEPTH
    ensures Run(s, SpellAll(es)) == if |s.stack| + DepthAll(es) <= MAX_DEPTH then Some(AfterAll(s, es)) else None
    decreases es
  {
    hide Spell, ReadElement;
    match es
    case Nothing =>
    case And(before, last) =>
      RunOver(s, SpellAll(before), Spell(last));
      RunInnerAll(s, before);
      if |s.stack| + DepthAll(before) <= MAX_DEPTH { RunInner(AfterAll(s, before), last); }
  }

  // The root element, from the start.
  lemma RunRoot(e: Element)
    ensures Run(START, Spell(e)) ==
            if Depth(e) <= MAX_DEPTH then Some(State([], Some(LocalName(e.name)), true, ReadElement(e, None, NO_INFO)))
            else None
  {
    hide Noted, Inside, LocalName;
    var start := Start(e.name, e.attributes, e.selfClosing);
    RunOne(START, start);
    if !e.selfClosing {
      var all := SpellAll(e.children);
      assert Spell(e) == [start] + (all + [End(e.name)]);
      RunOver(START, [start], all + [End(e.name)]);
      var inner := Step(START, start).value;
      RunOver(inner, all, [End(e.name)]);
      RunInnerAll(inner, e.children);
      if 1 + DepthAll(e.children) <= MAX_DEPTH { RunOne(AfterAll(inner, e.children), End(e.name)); }
    }
  }

  // ---------------------------------------------------------------- from runs to trees

  // An element whose end tag has not come yet.
  datatype Frame = Frame(name: string, attributes: seq<Attribute>, children: Elements)

  datatype Partial = Partial(frames: seq<Frame>, root: Option<Element>)

  // The tags read so far.
  function Spelled(frames: seq<Frame>): seq<Token> {
    if frames == [] then []
    else
      var f := frames[|frames| - 1];
      Spelled(frames[..|frames| - 1]) + [Start(f.name, f.attributes, false)] + SpellAll(f.children)
  }

  // A finished element joins the innermost open one, or is the root.
  function Joined(frames: seq<Frame>, e: Element): Partial {
    if frames == [] then Partial([], Some(e))
    else
      var f := frames[|frames| - 1];
      Partial(frames[..|frames| - 1] + [f.(children := And(f.children, e))], None)
  }

  ghost predicate Follows(s: State, p: Partial, markup: seq<Token>) {
    && |p.frames| == |s.stack| && (forall i :: 0 <= i < |p.frames| ==> p.frames[i].name == s.stack[i].name)
    && (s.closed <==> p.root.Some?) && (s.rootName.Some? <==> p.root.Some? || p.frames != [])
    && (p.root.Some? ==> p.frames == [] && markup == Spell(p.root.value))
    && (p.root.None? ==> markup == Spelled(p.frames))
  }

  lemma JoinedSpells(frames: seq<Frame>, e: Element)
    ensures var p := Joined(frames, e);
      if p.root.Some? then frames == [] && p.root == Some(e) else Spelled(p.frames) == Spelled(frames) + Spell(e)
  {
    if frames != [] {
      var f := frames[|frames| - 1];
      var now := frames[..|frames| - 1] + [f.(children := And(f.children, e))];
      assert now[..|now| - 1] == frames[..|frames| - 1];
      var head := Spelled(frames[..|frames| - 1]) + [Start(f.name, f.attributes, false)];
      assert Spelled(now) == head + (SpellAll(f.children) + Spell(e));
    }
  }

  lemma PartialStep(s: State, p: Partial, markup: seq<Token>, t: Token) returns (next: Partial)
    requires Follows(s, p, markup) && (t.Start? || t.End?) && Step(s, t).Some?
    ensures Follows(Step(s, t).value, next, markup + [t])
  {
    hide Step, Follows;
    match t
    case Start(name, attributes, selfClosing) =>
      if selfClosing { next := LeafStep(s, p, markup, t); } else { next := OpenStep(s, p, markup, t); }
    case End(name) => next := CloseStep(s, p, markup, t);
  }

  lemma LeafStep(s: State, p: Partial, markup: seq<Token>, t: Token) returns (next: Partial)
    requires Follows(s, p, markup) && t.Start? && t.selfClosing && Step(s, t).Some?
    ensures Follows(Step(s, t).value, next, markup + [t])
  {
    hide Noted, Inside, LocalName, Spelled, SpellAll;
    var e := Element(t.name, t.attributes, true, Nothing);
    assert Spell(e) == [t];
    JoinedSpells(p.frames, e);
    if p.frames == [] { assert markup == [] by { NoneSpelled(); } }
    next := Joined(p.frames, e);
  }

  lemma NoneSpelled()
    ensures Spelled([]) == []
  {
  }

  lemma OpenStep(s: State, p: Partial, markup: seq<Token>, t: Token) returns (next: Partial)
    requires Follows(s, p, markup) && t.Start? && !t.selfClosing && Step(s, t).Some?
    ensures Follows(Step(s, t).value, next, markup + [t])
  {
    hide Noted, Inside, LocalName, Spell;
    next := Partial(p.frames + [Frame(t.name, t.attributes, Nothing)], None);
    assert next.frames[..|p.frames|] == p.frames;
  }

  lemma CloseStep(s: State, p: Partial, markup: seq<Token>, t: Token) returns (next: Partial)
    requires Follows(s, p, markup) && t.End? && Step(s, t).Some?
    ensures Follows(Step(s, t).value, next, markup + [t])
  {
    var f, rest := p.frames[|p.frames| - 1], p.frames[..|p.frames| - 1];
    var e := Element(f.name, f.attributes, false, f.children);
    assert p.frames == rest + [f];
    FrameSpells(rest, f, t);
    hide Spelled, Spell, SpellAll;
    JoinedSpells(rest, e);
    if rest == [] { NoneSpelled(); }
    next := Joined(rest, e);
  }

  lemma FrameSpells(rest: seq<Frame>, f: Frame, t: Token)
    requires t == End(f.name)
    ensures Spelled(rest + [f]) + [t] == Spelled(rest) + Spell(Element(f.name, f.attributes, false, f.children))
  {
    assert (rest + [f])[..|rest|] == rest;
    var open, all := [Start(f.name, f.attributes, false)], SpellAll(f.children);
    assert Spelled(rest) + open + all + [t] == Spelled(rest) + (open + all + [t]);
  }

  lemma {:induction false} PartialRun(s: State, p: Partial, markup: seq<Token>, tokens: seq<Token>)
    returns (last: Partial)
    requires Follows(s, p, markup) && Run(s, tokens).Some?
    requires forall i :: 0 <= i < |tokens| ==> tokens[i].Start? || tokens[i].End?
    ensures Follows(Run(s, tokens).value, last, markup + tokens)
    decreases |tokens|
  {
    hide Step, Follows;
    if tokens == [] {
      assert markup + tokens == markup;
      return p;
    }
    var next := PartialStep(s, p, markup, tokens[0]);
    last := PartialRun(Step(s, tokens[0]).value, next, markup + [tokens[0]], tokens[1..]);
    assert markup + [tokens[0]] + tokens[1..] == markup + tokens;
  }

  // ---------------------------------------------------------------- text

  function Markup(tokens: seq<Token>): seq<Token> {
    if tokens == [] then []
    else (if tokens[0].Start? || tokens[0].End? then [tokens[0]] else []) + Markup(tokens[1..])
  }

  // Only white space follows the last tag.
  predicate TrailingOk(tokens: seq<Token>) {
    tokens == []
    || (TrailingOk(tokens[1..]) && (tokens[0] == Text(false) ==> Markup(tokens[1..]) != []))
  }

  function Closed(s: Option<State>): Option<State> { if s.Some? && s.value.closed then s else None }

  lemma {:induction false} MarkupOnly(tokens: seq<Token>)
    ensures forall i :: 0 <= i < |Markup(tokens)| ==> Markup(tokens)[i].Start? || Markup(tokens)[i].End?
  {
    if tokens != [] { MarkupOnly(tokens[1..]); }
  }

  // Once the root is closed no tag may follow.
  lemma ClosedStays(s: State, t: Token)
    requires s.closed && s.stack == []
    ensures Step(s, t) == if t == Skipped || t == Text(true) then Some(s) else None
  {
  }

  lemma {:induction false} RunClosed(s: State, tokens: seq<Token>)
    requires s.closed && s.stack == []
    ensures Run(s, tokens) == if Markup(tokens) == [] && TrailingOk(tokens) then Some(s) else None
    decreases |tokens|
  {
    hide Step;
    if tokens != [] {
      ClosedStays(s, tokens[0]);
      RunClosed(s, tokens[1..]);
    }
  }

  lemma {:induction false} MarkupOfMarkup(tokens: seq<Token>)
    ensures Markup(Markup(tokens)) == Markup(tokens) && TrailingOk(Markup(tokens))
    decreases |tokens|
  {
    if tokens != [] {
      MarkupOfMarkup(tokens[1..]);
      if tokens[0].Start? || tokens[0].End? {
        assert Markup(tokens)[0] == tokens[0] && Markup(tokens)[1..] == Markup(tokens[1..]);
      } else {
        assert Markup(tokens) == Markup(tokens[1..]);
      }
    }
  }

  lemma ClosesEmpty(s: State, t: Token)
    requires !s.closed && Step(s, t).Some? && Step(s, t).value.closed
    ensures Step(s, t).value.stack == [] && (t.Start? || t.End?)
  {
  }

  // Text and comments matter only after the root.
  lemma {:induction false} TextIsIgnored(s: State, tokens: seq<Token>)
    requires !s.closed
    ensures Closed(Run(s, tokens)) == if TrailingOk(tokens) then Closed(Run(s, Markup(tokens))) else None
    decreases |tokens|
  {
    if tokens != [] {
      var t, rest := tokens[0], tokens[1..];
      if t.Start? || t.End? {
        assert Markup(tokens)[0] == t && Markup(tokens)[1..] == Markup(rest);
        hide Step;
        if Step(s, t).Some? {
          var next := Step(s, t).value;
          if next.closed {
            ClosesEmpty(s, t);
            RunClosed(next, rest);
            RunClosed(next, Markup(rest));
            MarkupOfMarkup(rest);
          } else {
            TextIsIgnored(next, rest);
          }
        }
      } else {
        assert Markup(tokens) == Markup(rest);
        TextIsIgnored(s, rest);
      }
    }
  }

  // ---------------------------------------------------------------- the two readings agree

  // A manifest, read as a tree.
  ghost predicate Reads(tokens: seq<Token>, e: Element) {
    Markup(tokens) == Spell(e) && TrailingOk(tokens) && Depth(e) <= MAX_DEPTH && LocalName(e.name) == "Package"
  }

  // Main result: the machine accepts exactly the sequences that spell one tree with root
  // Package, at most 128 deep and followed by nothing but white space, and learns from it
  // what the recursive reading learns.
  lemma MachineReadsTree(tokens: seq<Token>, info: Info)
    ensures Accept(Run(START, tokens)) == Some(info) <==>
            exists e :: Reads(tokens, e) && ReadElement(e, None, NO_INFO) == info
  {
    hide Step, Noted, Inside, LocalName, ReadElement;
    TextIsIgnored(START, tokens);
    if Accept(Run(START, tokens)) == Some(info) {
      MarkupOnly(tokens);
      assert Follows(START, Partial([], None), []);
      var last := PartialRun(START, Partial([], None), [], Markup(tokens));
      assert [] + Markup(tokens) == Markup(tokens);
      var e := last.root.value;
      RunRoot(e);
      assert Reads(tokens, e);
    }
    if e :| Reads(tokens, e) && ReadElement(e, None, NO_INFO) == info { RunRoot(e); }
  }

  // ---------------------------------------------------------------- what a reading contains

  // The recorded applications in document order.
  function Recorded(e: Element): seq<Application> {
    (if IsRecorded(e.name, e.attributes) then [ApplicationOf(e.attributes)] else [])
    + if e.selfClosing then [] else RecordedAll(e.children)
  }

  function RecordedAll(es: Elements): seq<Application> {
    match es
    case Nothing => []
    case And(before, last) => RecordedAll(before) + Recorded(last)
  }

  // What a start tag itself gives.
  function Given(name: string, attributes: seq<Attribute>, app: Option<nat>): seq<(nat, string)> {
    if !IsIdentity(name) && !IsRecorded(name, attributes) && IsVisualElements(name) && app.Some?
       && ValueOf(attributes, "DisplayName").Some?
    then [(app.value, ValueOf(attributes, "DisplayName").value)] else []
  }

  // The display names given, each with the number of the nearest recorded application
  // around it. first is the number of the next application to be recorded.
  function Displayed(e: Element, app: Option<nat>, first: nat): seq<(nat, string)> {
    Given(e.name, e.attributes, app)
    + if e.selfClosing then []
      else if IsRecorded(e.name, e.attributes) then DisplayedAll(e.children, Some(first), first + 1)
      else DisplayedAll(e.children, app, first)
  }

  function DisplayedAll(es: Elements, app: Option<nat>, first: nat): seq<(nat, string)> {
    match es
    case Nothing => []
    case And(before, last) =>
      DisplayedAll(before, app, first) + Displayed(last, app, first + |RecordedAll(before)|)
  }

  // The last name given to application i.
  function Latest(given: seq<(nat, string)>, i: nat, otherwise: string): string {
    if given == [] then otherwise
    else if given[|given| - 1].0 == i then given[|given| - 1].1
    else Latest(given[..|given| - 1], i, otherwise)
  }

  function FirstExecutable(applications: seq<Application>): Option<string> {
    if applications == [] then None
    else if applications[0].executable != [] then Some(applications[0].executable)
    else FirstExecutable(applications[1..])
  }

  // The values of an attribute of the Identity elements, in document order.
  function Identities(e: Element, attribute: string): seq<string> {
    (if IsIdentity(e.name) && ValueOf(e.attributes, attribute).Some?
     then [ValueOf(e.attributes, attribute).value] else [])
    + if e.selfClosing then [] else IdentitiesAll(e.children, attribute)
  }

  function IdentitiesAll(es: Elements, attribute: string): seq<string> {
    match es
    case Nothing => []
    case And(before, last) => IdentitiesAll(before, attribute) + Identities(last, attribute)
  }

  function LastOr(values: seq<string>, otherwise: string): string {
    if values == [] then otherwise else values[|values| - 1]
  }

  // info extended by the applications and names given.
  ghost predicate Extends(info: Info, now: Info, applications: seq<Application>, given: seq<(nat, string)>) {
    && |now.applications| == |info.applications| + |applications|
    && (forall i :: 0 <= i < |info.applications| ==>
          now.applications[i] ==
          info.applications[i].(displayName := Latest(given, i, info.applications[i].displayName)))
    && (forall i :: 0 <= i < |applications| ==>
          now.applications[|info.applications| + i] ==
          applications[i].(displayName := Latest(given, |info.applications| + i, [])))
    && now.mainExecutable == (if info.mainExecutable.Some? then info.mainExecutable else FirstExecutable(applications))
  }

  lemma {:induction false} LatestAppend(a: seq<(nat, string)>, b: seq<(nat, string)>, i: nat, otherwise: string)
    ensures Latest(a + b, i, otherwise) == Latest(b, i, Latest(a, i, otherwise))
    decreases |b|
  {
    if b == [] { assert a + b == a; }
    else {
      assert (a + b)[..|a + b| - 1] == a + b[..|b| - 1];
      LatestAppend(a, b[..|b| - 1], i, otherwise);
    }
  }

  lemma {:induction false} FirstAppend(a: seq<Application>, b: seq<Application>)
    ensures FirstExecutable(a + b) == if FirstExecutable(a).Some? then FirstExecutable(a) else FirstExecutable(b)
    decreases |a|
  {
    if a == [] { assert a + b == b; }
    else {
      assert (a + b)[1..] == a[1..] + b;
      FirstAppend(a[1..], b);
    }
  }

  // What was there keeps its place, ...
  lemma KeptAt(x: Info, y: Info, a: seq<Application>, g: seq<(nat, string)>, i: nat)
    requires Extends(x, y, a, g) && i < |x.applications|
    ensures i < |y.applications|
    ensures y.applications[i] == x.applications[i].(displayName := Latest(g, i, x.applications[i].displayName))
  {
    hide Latest, FirstExecutable;
  }

  // ... and what is added comes behind it.
  lemma AddedAt(x: Info, y: Info, a: seq<Application>, g: seq<(nat, string)>, i: nat)
    requires Extends(x, y, a, g) && i < |a|
    ensures |x.applications| + i < |y.applications|
    ensures y.applications[|x.applications| + i] == a[i].(displayName := Latest(g, |x.applications| + i, []))
  {
    hide Latest, FirstExecutable;
  }

  lemma ExtendsTwice(x: Info, y: Info, z: Info, a: seq<Application>, b: seq<Application>,
                     g: seq<(nat, string)>, h: seq<(nat, string)>)
    requires Extends(x, y, a, g) && Extends(y, z, b, h)
    requires forall k :: 0 <= k < |g| ==> g[k].0 < |x.applications| + |a|
    ensures Extends(x, z, a + b, g + h)
  {
    ExtendsCount(x, y, a, g);
    ExtendsCount(y, z, b, h);
    FirstAppend(a, b);
    var n := |x.applications|;
    forall i | 0 <= i < n
      ensures z.applications[i] == x.applications[i].(displayName := Latest(g + h, i, x.applications[i].displayName))
    {
      KeptTwice(x, y, z, a, b, g, h, i);
    }
    forall i | 0 <= i < |a + b|
      ensures z.applications[n + i] == (a + b)[i].(displayName := Latest(g + h, n + i, []))
    {
      AddedTwice(x, y, z, a, b, g, h, i);
    }
    hide Latest, FirstExecutable;
  }

  lemma KeptTwice(x: Info, y: Info, z: Info, a: seq<Application>, b: seq<Application>,
                  g: seq<(nat, string)>, h: seq<(nat, string)>, i: nat)
    requires Extends(x, y, a, g) && Extends(y, z, b, h) && i < |x.applications|
    ensures i < |z.applications|
    ensures z.applications[i] == x.applications[i].(displayName := Latest(g + h, i, x.applications[i].displayName))
  {
    hide Latest, Extends;
    KeptAt(x, y, a, g, i);
    KeptAt(y, z, b, h, i);
    LatestAppend(g, h, i, x.applications[i].displayName);
  }

  lemma AddedTwice(x: Info, y: Info, z: Info, a: seq<Application>, b: seq<Application>,
                   g: seq<(nat, string)>, h: seq<(nat, string)>, i: nat)
    requires Extends(x, y, a, g) && Extends(y, z, b, h) && i < |a + b|
    requires forall k :: 0 <= k < |g| ==> g[k].0 < |x.applications| + |a|
    ensures |x.applications| + i < |z.applications|
    ensures z.applications[|x.applications| + i] ==
            (a + b)[i].(displayName := Latest(g + h, |x.applications| + i, []))
  {
    hide Latest, Extends;
    var n := |x.applications|;
    ExtendsCount(x, y, a, g);
    LatestAppend(g, h, n + i, []);
    if i < |a| {
      AddedAt(x, y, a, g, i);
      KeptAt(y, z, b, h, n + i);
    } else {
      NoneLatest(g, n + i, []);
      AddedAt(y, z, b, h, i - |a|);
    }
  }

  lemma {:induction false} NoneLatest(g: seq<(nat, string)>, i: nat, otherwise: string)
    requires forall k :: 0 <= k < |g| ==> g[k].0 != i
    ensures Latest(g, i, otherwise) == otherwise
  {
    if g != [] { NoneLatest(g[..|g| - 1], i, otherwise); }
  }

  // What one start tag adds: the identity, ...
  lemma NotedExtends(info: Info, name: string, attributes: seq<Attribute>, app: Option<nat>)
    requires app.Some? ==> app.value < |info.applications|
    ensures Extends(info, Noted(info, name, attributes, app),
                    if IsRecorded(name, attributes) then [ApplicationOf(attributes)] else [],
                    Given(name, attributes, app))
  {
    hide ValueOf, LocalName, IsVisualElements, Extends;
    assert IsIdentity(name) ==> !IsRecorded(name, attributes) by { assert |"Identity"| != |"Application"|; }
    hide IsIdentity, IsRecorded;
    var now := Noted(info, name, attributes, app);
    if IsRecorded(name, attributes) { OneApplication(info, now, ApplicationOf(attributes)); }
    else if Given(name, attributes, app) != [] {
      OneName(info, now, app.value, ValueOf(attributes, "DisplayName").value);
    } else { SameApplications(info, now); }
  }

  lemma SameApplications(info: Info, now: Info)
    requires now.applications == info.applications && now.mainExecutable == info.mainExecutable
    ensures Extends(info, now, [], [])
  {
  }

  // ... an application, ...
  lemma OneApplication(info: Info, now: Info, a: Application)
    requires now.applications == info.applications + [a]
    requires now.mainExecutable ==
             if info.mainExecutable.None? && a.executable != [] then Some(a.executable) else info.mainExecutable
    requires a.displayName == []
    ensures Extends(info, now, [a], [])
  {
    assert [a][1..] == [];
    assert FirstExecutable([a]) == if a.executable != [] then Some(a.executable) else None;
  }

  // ... or the display name of one.
  lemma OneName(info: Info, now: Info, i: nat, value: string)
    requires i < |info.applications| && now.mainExecutable == info.mainExecutable
    requires now.applications == info.applications[i := info.applications[i].(displayName := value)]
    ensures Extends(info, now, [], [(i, value)])
  {
    forall k: nat, otherwise: string ensures Latest([(i, value)], k, otherwise) == if k == i then value else otherwise {
      assert [(i, value)][..0] == [];
    }
  }

  lemma {:induction false} GivenInRange(e: Element, app: Option<nat>, first: nat)
    requires app.Some? ==> app.value < first
    ensures forall k :: 0 <= k < |Displayed(e, app, first)| ==> Displayed(e, app, first)[k].0 < first + |Recorded(e)|
    decreases e
  {
    hide IsIdentity, IsRecorded, IsVisualElements, ValueOf;
    if !e.selfClosing {
      if IsRecorded(e.name, e.attributes) { GivenInRangeAll(e.children, Some(first), first + 1); }
      else { GivenInRangeAll(e.children, app, first); }
    }
  }

  lemma {:induction false} GivenInRangeAll(es: Elements, app: Option<nat>, first: nat)
    requires app.Some? ==> app.value < first
    ensures forall k :: 0 <= k < |DisplayedAll(es, app, first)| ==>
      DisplayedAll(es, app, first)[k].0 < first + |RecordedAll(es)|
    decreases es
  {
    hide Displayed, Recorded;
    match es
    case Nothing =>
    case And(before, last) =>
      GivenInRangeAll(before, app, first);
      GivenInRange(last, app, first + |RecordedAll(before)|);
  }

  // The recursive reading collects the recorded applications in document order, the first
  // executable that is not empty, and for each application the last display name given
  // inside it and no other recorded one.
  lemma {:induction false} ReadingExtends(e: Element, app: Option<nat>, info: Info)
    requires app.Some? ==> app.value < |info.applications|
    ensures Extends(info, ReadElement(e, app, info), Recorded(e), Displayed(e, app, |info.applications|))
    decreases e
  {
    hide IsIdentity, IsRecorded, IsVisualElements, ValueOf, Noted, Extends, ReadElement, Recorded, Displayed, Given;
    hide Inside;
    var n := |info.applications|;
    var noted := Noted(info, e.name, e.attributes, app);
    NotedExtends(info, e.name, e.attributes, app);
    OneGiven(e, app, n);
    if e.selfClosing { SelfClosingReads(e, app, info); }
    else {
      var inside := Inside(info, e.name, e.attributes, app);
      var a := if IsRecorded(e.name, e.attributes) then [ApplicationOf(e.attributes)] else [];
      NotedCount(info, e.name, e.attributes, app);
      InsideIsRecorded(info, e.name, e.attributes, app);
      ReadingExtendsAll(e.children, inside, noted);
      ExtendsTwice(info, noted, ReadAll(e.children, inside, noted), a, RecordedAll(e.children),
                   Given(e.name, e.attributes, app), DisplayedAll(e.children, inside, |noted.applications|));
      OpenReads(e, app, info);
    }
  }

  lemma InsideIsRecorded(info: Info, name: string, attributes: seq<Attribute>, app: Option<nat>)
    requires app.Some? ==> app.value < |info.applications|
    ensures var inside := Inside(info, name, attributes, app);
      inside.Some? ==> inside.value < |Noted(info, name, attributes, app).applications|
  {
    hide ValueOf, IsVisualElements;
    NotedCount(info, name, attributes, app);
  }

  // The reading of an element, taken apart.
  lemma SelfClosingReads(e: Element, app: Option<nat>, info: Info)
    requires e.selfClosing
    ensures ReadElement(e, app, info) == Noted(info, e.name, e.attributes, app)
  {
    hide IsIdentity, IsRecorded, IsVisualElements, ValueOf, Noted;
  }

  lemma OpenReads(e: Element, app: Option<nat>, info: Info)
    requires !e.selfClosing
    ensures var noted, inside := Noted(info, e.name, e.attributes, app), Inside(info, e.name, e.attributes, app);
      && ReadElement(e, app, info) == ReadAll(e.children, inside, noted)
      && Recorded(e) ==
         (if IsRecorded(e.name, e.attributes) then [ApplicationOf(e.attributes)] else []) + RecordedAll(e.children)
      && Displayed(e, app, |info.applications|) ==
         Given(e.name, e.attributes, app) + DisplayedAll(e.children, inside, |noted.applications|)
  {
    hide IsIdentity, IsRecorded, IsVisualElements, ValueOf, Noted, Given;
    NotedCount(info, e.name, e.attributes, app);
  }

  lemma OneGiven(e: Element, app: Option<nat>, n: nat)
    requires app.Some? ==> app.value < n
    ensures forall k :: 0 <= k < |Given(e.name, e.attributes, app)| ==> Given(e.name, e.attributes, app)[k].0 < n
    ensures e.selfClosing ==> Displayed(e, app, n) == Given(e.name, e.attributes, app)
    ensures e.selfClosing ==>
      Recorded(e) == if IsRecorded(e.name, e.attributes) then [ApplicationOf(e.attributes)] else []
  {
    var given := Given(e.name, e.attributes, app);
    assert given + [] == given;
  }

  lemma NotedCount(info: Info, name: string, attributes: seq<Attribute>, app: Option<nat>)
    ensures |Noted(info, name, attributes, app).applications| ==
            |info.applications| + if IsRecorded(name, attributes) then 1 else 0
  {
    hide ValueOf, LocalName, IsVisualElements;
    assert IsIdentity(name) ==> !IsRecorded(name, attributes) by { assert |"Identity"| != |"Application"|; }
  }

  lemma {:induction false} ReadingExtendsAll(es: Elements, app: Option<nat>, info: Info)
    requires app.Some? ==> app.value < |info.applications|
    ensures Extends(info, ReadAll(es, app, info), RecordedAll(es), DisplayedAll(es, app, |info.applications|))
    decreases es
  {
    hide Extends, ReadElement, Recorded, Displayed;
    var n := |info.applications|;
    match es
    case Nothing => ExtendsNothing(info);
    case And(before, last) =>
      ReadingExtendsAll(before, app, info);
      var middle := ReadAll(before, app, info);
      ExtendsCount(info, middle, RecordedAll(before), DisplayedAll(before, app, n));
      ReadingExtends(last, app, middle);
      GivenInRangeAll(before, app, n);
      ExtendsTwice(info, middle, ReadElement(last, app, middle), RecordedAll(before), Recorded(last),
                   DisplayedAll(before, app, n), Displayed(last, app, n + |RecordedAll(before)|));
  }

  lemma ExtendsNothing(info: Info)
    ensures Extends(info, info, [], [])
  {
  }

  lemma ExtendsCount(info: Info, now: Info, applications: seq<Application>, given: seq<(nat, string)>)
    requires Extends(info, now, applications, given)
    ensures |now.applications| == |info.applications| + |applications|
  {
  }

  // The identity values are the last ones given.
  lemma {:induction false} ReadingIdentity(e: Element, app: Option<nat>, info: Info)
    ensures var r := ReadElement(e, app, info);
      && r.packageName == LastOr(Identities(e, "Name"), info.packageName)
      && r.publisher == LastOr(Identities(e, "Publisher"), info.publisher)
      && r.version == LastOr(Identities(e, "Version"), info.version)
    decreases e
  {
    hide IsIdentity, IsRecorded, IsVisualElements, ValueOf;
    if !e.selfClosing {
      ReadingIdentityAll(e.children, Inside(info, e.name, e.attributes, app), Noted(info, e.name, e.attributes, app));
    }
  }

  lemma {:induction false} ReadingIdentityAll(es: Elements, app: Option<nat>, info: Info)
    ensures var r := ReadAll(es, app, info);
      && r.packageName == LastOr(IdentitiesAll(es, "Name"), info.packageName)
      && r.publisher == LastOr(IdentitiesAll(es, "Publisher"), info.publisher)
      && r.version == LastOr(IdentitiesAll(es, "Version"), info.version)
    decreases es
  {
    hide Identities, ReadElement;
    match es
    case Nothing =>
    case And(before, last) =>
      ReadingIdentityAll(before, app, info);
      ReadingIdentity(last, app, ReadAll(before, app, info));
  }
}
