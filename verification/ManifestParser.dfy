// AppxManifestParser and decode_xml_entities (src/package/msix.cpp): reading tags from the
// manifest text and driving the stack machine with them.
module ManifestParser {
  import opened ManifestTree
  import opened TextSearch
  import JsonText

  const MAX_ATTRIBUTES: nat := 256

  // ---------------------------------------------------------------- entities

  // The digits of a character reference, refused beyond the last code point.
  function CodePoint(digits: string, base: nat, value: nat): Option<nat>
    requires base == 10 || base == 16
  {
    if digits == [] then Some(value)
    else
      var d := JsonText.HexValue(digits[0]);
      if d < 0 || d >= base || value > (0x10FFFF - d) / base then None
      else CodePoint(digits[1..], base, value * base + d)
  }

  predicate IsHexadecimal(entity: string) { |entity| >= 3 && (entity[1] == 'x' || entity[1] == 'X') }

  // The character an entity stands for.
  function EntityCode(entity: string): Option<nat> {
    if entity == "amp" then Some('&' as nat)
    else if entity == "lt" then Some('<' as nat)
    else if entity == "gt" then Some('>' as nat)
    else if entity == "quot" then Some('\"' as nat)
    else if entity == "apos" then Some('\'' as nat)
    else if |entity| >= 2 && entity[0] == '#' then
      var code := if IsHexadecimal(entity) then CodePoint(entity[2..], 16, 0) else CodePoint(entity[1..], 10, 0);
      if code.None? || code.value == 0 || 0xD800 <= code.value <= 0xDFFF then None else code
    else None
  }

  predicate IsEntityEnd(s: string, end: nat) { 1 < end < |s| && end <= 16 }

  // Something read, and where it ends.
  datatype Got<+T> = Got(value: T, end: nat)

  // The first character or entity of a text.
  function PieceOf(s: string): (r: Option<Got<string>>)
    requires s != []
    ensures r.Some? ==> 0 < r.value.end <= |s|
  {
    if s[0] != '&' then Some(Got([s[0]], 1))
    else
      var end := Find(s, [';'], 1);
      if !IsEntityEnd(s, end) then None
      else
        var code := EntityCode(s[1..end]);
        if code.None? then None else Some(Got(JsonText.Utf8(code.value), end + 1))
  }

  function Prefixed(text: string, rest: Option<string>): Option<string> {
    if rest.None? then None else Some(text + rest.value)
  }

  function Decode(s: string): Option<string>
    decreases |s|
  {
    if s == [] then Some([])
    else
      var piece := PieceOf(s);
      if piece.None? then None else Prefixed(piece.value.value, Decode(s[piece.value.end..]))
  }

  // A text without ampersands stands for itself, so decoding may start with looking for one.
  lemma {:induction false} NothingToDecode(s: string)
    requires '&' !in s
    ensures Decode(s) == Some(s)
    decreases |s|
  {
    hide PieceOf;
    if s != [] {
      PlainPiece(s);
      NothingToDecode(s[1..]);
      assert s == [s[0]] + s[1..];
    }
  }

  lemma PlainPiece(s: string)
    requires s != [] && s[0] != '&'
    ensures PieceOf(s) == Some(Got([s[0]], 1))
  {
  }

  method ReadCodePoint(entity: string, start: nat, base: nat) returns (code: Option<nat>)
    requires start <= |entity| && (base == 10 || base == 16)
    ensures code == CodePoint(entity[start..], base, 0)
  {
    var value: nat := 0;
    for digit := start to |entity|
      invariant CodePoint(entity[start..], base, 0) == CodePoint(entity[digit..], base, value)
    {
      assert entity[digit..][1..] == entity[digit + 1..];
      var d := JsonText.HexValue(entity[digit]);
      if d < 0 || d >= base || value > (0x10FFFF - d) / base { return None; }
      value := value * base + d;
    }
    return Some(value);
  }

  method DecodeEntities(value: string) returns (decoded: Option<string>)
    ensures decoded == Decode(value)
  {
    hide PieceOf;
    if '&' !in value {
      NothingToDecode(value);
      return Some(value);
    }
    var text: string := [];
    var position := 0;
    assert value[0..] == value;
    PrefixedNothing(Decode(value));
    while position < |value|
      invariant position <= |value| && Decode(value) == Prefixed(text, Decode(value[position..]))
    {
      var piece := DecodePiece(value[position..]);
      if piece.None? { return None; }
      assert value[position..][piece.value.end..] == value[position + piece.value.end..];
      PrefixedTwice(text, piece.value.value, Decode(value[position + piece.value.end..]));
      text := text + piece.value.value;
      position := position + piece.value.end;
    }
    assert text + [] == text;
    return Some(text);
  }

  method DecodePiece(rest: string) returns (piece: Option<Got<string>>)
    requires rest != []
    ensures piece == PieceOf(rest)
  {
    hide EntityCode, Find;
    if rest[0] != '&' { return Some(Got([rest[0]], 1)); }
    var end := FindText(rest, [';'], 1);
    if !IsEntityEnd(rest, end) { return None; }
    var code := DecodeEntity(rest[1..end]);
    if code.None? { return None; }
    return Some(Got(JsonText.Utf8(code.value), end + 1));
  }

  lemma PrefixedNothing(rest: Option<string>)
    ensures Prefixed([], rest) == rest
  {
    if rest.Some? { assert [] + rest.value == rest.value; }
  }

  lemma PrefixedTwice(text: string, more: string, rest: Option<string>)
    ensures Prefixed(text, Prefixed(more, rest)) == Prefixed(text + more, rest)
  {
    if rest.Some? { assert text + (more + rest.value) == text + more + rest.value; }
  }

  method DecodeEntity(entity: string) returns (code: Option<nat>)
    ensures code == EntityCode(entity)
  {
    hide CodePoint;
    if entity == "amp" { return Some('&' as nat); }
    if entity == "lt" { return Some('<' as nat); }
    if entity == "gt" { return Some('>' as nat); }
    if entity == "quot" { return Some('\"' as nat); }
    if entity == "apos" { return Some('\'' as nat); }
    if |entity| < 2 || entity[0] != '#' { return None; }
    if IsHexadecimal(entity) { code := ReadCodePoint(entity, 2, 16); } else { code := ReadCodePoint(entity, 1, 10); }
    if code.None? || code.value == 0 || 0xD800 <= code.value <= 0xDFFF { return None; }
  }

  // ---------------------------------------------------------------- tags

  predicate IsSpace(c: char) { c == ' ' || c == '\t' || c == '\r' || c == '\n' }

  predicate IsBlank(s: string) { forall i :: 0 <= i < |s| ==> IsSpace(s[i]) }

  predicate IsNameStart(c: char) { 'A' <= c <= 'Z' || 'a' <= c <= 'z' || c == '_' || c == ':' }

  predicate IsNameChar(c: char) { IsNameStart(c) || '0' <= c <= '9' || c == '-' || c == '.' }

  function SkipSpace(xml: string, at: nat): (p: nat)
    requires at <= |xml|
    ensures at <= p <= |xml|
    decreases |xml| - at
  {
    if at < |xml| && IsSpace(xml[at]) then SkipSpace(xml, at + 1) else at
  }

  function NameEnd(xml: string, at: nat): (p: nat)
    requires at <= |xml|
    ensures at <= p <= |xml|
    decreases |xml| - at
  {
    if at < |xml| && IsNameChar(xml[at]) then NameEnd(xml, at + 1) else at
  }

  function NameAt(xml: string, at: nat): (r: Option<Got<string>>)
    ensures r.Some? ==> at < r.value.end <= |xml|
  {
    if at < |xml| && IsNameStart(xml[at]) then Some(Got(xml[at..NameEnd(xml, at + 1)], NameEnd(xml, at + 1))) else None
  }

  datatype Attributes = Attributes(list: seq<Attribute>, selfClosing: bool)

  predicate HasName(list: seq<Attribute>, name: string) { exists i :: 0 <= i < |list| && list[i].name == name }

  // One attribute: a name, an equals sign and a quoted value.
  function AttributeAt(xml: string, at: nat): (r: Option<Got<Attribute>>)
    ensures r.Some? ==> at < r.value.end <= |xml|
  {
    var name := NameAt(xml, at);
    if name.None? then None
    else
      var sign := SkipSpace(xml, name.value.end);
      if sign == |xml| || xml[sign] != '=' then None
      else
        var quote := SkipSpace(xml, sign + 1);
        if quote == |xml| || (xml[quote] != '\'' && xml[quote] != '\"') then None
        else
          var end := Find(xml, [xml[quote]], quote + 1);
          if end == |xml| || '<' in xml[quote + 1..end] || Decode(xml[quote + 1..end]).None? then None
          else Some(Got(Attribute(name.value.value, Decode(xml[quote + 1..end]).value), end + 1))
  }

  // The attributes of a start tag, to its end.
  function AttributesAt(xml: string, at: nat, before: seq<Attribute>): (r: Option<Got<Attributes>>)
    requires at <= |xml|
    ensures r.Some? ==> at < r.value.end <= |xml|
    decreases |xml| - at
  {
    var p := SkipSpace(xml, at);
    if p == |xml| then None
    else if xml[p] == '>' then Some(Got(Attributes(before, false), p + 1))
    else if xml[p] == '/' then
      var q := SkipSpace(xml, p + 1);
      if q < |xml| && xml[q] == '>' then Some(Got(Attributes(before, true), q + 1)) else None
    else
      var a := AttributeAt(xml, p);
      if a.None? || |before| >= MAX_ATTRIBUTES || HasName(before, a.value.value.name) then None
      else AttributesAt(xml, a.value.end, before + [a.value.value])
  }

  function StartAt(xml: string, at: nat): (r: Option<Got<Token>>)
    ensures r.Some? ==> at < r.value.end <= |xml|
  {
    var name := NameAt(xml, at);
    if name.None? then None
    else
      var a := AttributesAt(xml, name.value.end, []);
      if a.None? then None
      else Some(Got(Start(name.value.value, a.value.value.list, a.value.value.selfClosing), a.value.end))
  }

  function EndAt(xml: string, at: nat): (r: Option<Got<Token>>)
    ensures r.Some? ==> at < r.value.end <= |xml|
  {
    var name := NameAt(xml, at);
    if name.None? then None
    else
      var p := SkipSpace(xml, name.value.end);
      if p < |xml| && xml[p] == '>' then Some(Got(End(name.value.value), p + 1)) else None
  }

  // What is skipped up to a terminator.
  function SkipAt(xml: string, from: nat, terminator: string): (r: Option<Got<Token>>)
    requires terminator != []
    ensures r.Some? ==> r.value.value == Skipped && from < r.value.end <= |xml|
  {
    if from > |xml| then None
    else
      var end := Find(xml, terminator, from);
      if end == |xml| then None else Some(Got(Skipped, end + |terminator|))
  }

  function TextAt(xml: string, at: nat): (r: Option<Got<Token>>)
    requires at < |xml| && xml[at] != '<'
    ensures r.Some? ==> at < r.value.end <= |xml|
  {
    var end := Find(xml, ['<'], at + 1);
    if Decode(xml[at..end]).None? then None else Some(Got(Text(IsBlank(xml[at..end])), end))
  }

  function TokenAt(xml: string, at: nat): (r: Option<Got<Token>>)
    requires at < |xml|
    ensures r.Some? ==> at < r.value.end <= |xml|
  {
    if xml[at] != '<' then TextAt(xml, at)
    else if OccursAt(xml, "<!--", at) then SkipAt(xml, at + 4, "-->")
    else if OccursAt(xml, "<![CDATA[", at) then SkipAt(xml, at + 9, "]]>")
    else if OccursAt(xml, "<?", at) then SkipAt(xml, at + 2, "?>")
    else if OccursAt(xml, "<!", at) then None
    else if OccursAt(xml, "</", at) then EndAt(xml, at + 2)
    else StartAt(xml, at + 1)
  }

  // All tokens from a position on.
  function Lex(xml: string, at: nat): Option<seq<Token>>
    requires at <= |xml|
    decreases |xml| - at
  {
    if at == |xml| then Some([])
    else
      var t := TokenAt(xml, at);
      if t.None? then None
      else
        var rest := Lex(xml, t.value.end);
        if rest.None? then None else Some([t.value.value] + rest.value)
  }

  // The text after a byte order mark.
  function Beginning(xml: string): (at: nat)
    ensures at <= |xml|
  {
    if |xml| >= 3 && xml[0] as int == 0xEF && xml[1] as int == 0xBB && xml[2] as int == 0xBF then 3 else 0
  }

  // Reading and stepping at once.
  function Rest(xml: string, s: State, at: nat): Option<Info>
    requires at <= |xml|
    decreases |xml| - at
  {
    if at == |xml| then Accept(Some(s))
    else
      var t := TokenAt(xml, at);
      if t.None? || Step(s, t.value.value).None? then None
      else Rest(xml, Step(s, t.value.value).value, t.value.end)
  }

  lemma {:induction false} RestIsRun(xml: string, s: State, at: nat)
    requires at <= |xml|
    ensures Rest(xml, s, at) == if Lex(xml, at).None? then None else Accept(Run(s, Lex(xml, at).value))
    decreases |xml| - at
  {
    hide TokenAt, Step, Accept;
    if at < |xml| {
      var t := TokenAt(xml, at);
      if t.Some? {
        if Step(s, t.value.value).Some? { RestIsRun(xml, Step(s, t.value.value).value, t.value.end); }
        if Lex(xml, t.value.end).Some? {
          var rest := Lex(xml, t.value.end).value;
          assert ([t.value.value] + rest)[1..] == rest;
          assert Accept(None) == None by { NoneAccepted(); }
        }
      }
    }
  }

  lemma NoneAccepted()
    ensures Accept(None) == None
  {
  }

  function Manifest(xml: string): Option<Info> { Rest(xml, START, Beginning(xml)) }

  // Main result: a manifest is accepted exactly when its text is a sequence of tags that
  // spells one tree with root Package, and what is learned is the reading of that tree.
  lemma ManifestIsTree(xml: string, info: Info)
    ensures Manifest(xml) == Some(info) <==>
            exists e :: Lex(xml, Beginning(xml)).Some? && Reads(Lex(xml, Beginning(xml)).value, e)
                        && ReadElement(e, None, NO_INFO) == info
  {
    hide TokenAt, Step, Accept, Reads, ReadElement, Lex, Rest;
    RestIsRun(xml, START, Beginning(xml));
    if Lex(xml, Beginning(xml)).Some? { MachineReadsTree(Lex(xml, Beginning(xml)).value, info); }
  }

  // What is learned: the recorded applications in document order, each with the last display
  // name given directly inside it; the first executable; the last identity.
  ghost predicate Describes(e: Element, info: Info) {
    && |info.applications| == |Recorded(e)|
    && (forall i :: 0 <= i < |info.applications| ==>
          info.applications[i] == Recorded(e)[i].(displayName := Latest(Displayed(e, None, 0), i, [])))
    && info.mainExecutable == FirstExecutable(Recorded(e))
    && info.packageName == LastOr(Identities(e, "Name"), []) && info.publisher == LastOr(Identities(e, "Publisher"), [])
    && info.version == LastOr(Identities(e, "Version"), [])
  }

  lemma AcceptedManifest(xml: string, info: Info)
    requires Manifest(xml) == Some(info)
    ensures exists e :: Lex(xml, Beginning(xml)).Some? && Reads(Lex(xml, Beginning(xml)).value, e) && Describes(e, info)
  {
    hide Manifest, Lex, Reads, ReadElement, Recorded, Displayed, Identities;
    ManifestIsTree(xml, info);
    var e :| Lex(xml, Beginning(xml)).Some? && Reads(Lex(xml, Beginning(xml)).value, e)
             && ReadElement(e, None, NO_INFO) == info;
    ReadingExtends(e, None, NO_INFO);
    ReadingIdentity(e, None, NO_INFO);
    assert forall i :: 0 <= i < |info.applications| ==>
      info.applications[|NO_INFO.applications| + i] == info.applications[i];
    assert Describes(e, info);
  }

  // ---------------------------------------------------------------- the parser

  class AppxManifestParser {
    const xml: string
    var position: nat
    var rootName: Option<string>
    var rootClosed: bool
    var stack: seq<Node>
    var info: Info

    constructor (xml: string)
      ensures this.xml == xml && position == 0 && Current() == START && Valid()
    {
      this.xml, position := xml, 0;
      rootName, rootClosed, stack, info := None, false, [], NO_INFO;
    }

    ghost function Current(): State
      reads this
    {
      State(stack, rootName, rootClosed, info)
    }

    // Elements belong to applications that have been recorded.
    ghost predicate Valid()
      reads this
    {
      position <= |xml|
      && forall i :: 0 <= i < |stack| ==> stack[i].app.None? || stack[i].app.value < |info.applications|
    }

    method Skip(at: nat) returns (p: nat)
      requires at <= |xml|
      ensures p == SkipSpace(xml, at)
    {
      p := at;
      while p < |xml| && IsSpace(xml[p])
        invariant p <= |xml| && SkipSpace(xml, at) == SkipSpace(xml, p)
      {
        p := p + 1;
      }
    }

    // parse_name.
    method ParseName() returns (name: Option<string>)
      requires Valid()
      modifies this`position
      ensures Valid()
      ensures match NameAt(xml, old(position))
              case None => name.None?
              case Some(got) => name == Some(got.value) && position == got.end
    {
      if position >= |xml| || !IsNameStart(xml[position]) { return None; }
      var start := position;
      position := position + 1;
      while position < |xml| && IsNameChar(xml[position])
        invariant start < position <= |xml| && NameEnd(xml, start + 1) == NameEnd(xml, position)
      {
        position := position + 1;
      }
      return Some(xml[start..position]);
    }

    method SkipUntil(prefix: nat, terminator: string) returns (ok: bool)
      requires Valid() && terminator != []
      modifies this`position
      ensures Valid()
      ensures match SkipAt(xml, old(position) + prefix, terminator)
              case None => !ok
              case Some(got) => ok && position == got.end
    {
      if position + prefix > |xml| { return false; }
      var end := FindText(xml, terminator, position + prefix);
      if end == |xml| { return false; }
      position := end + |terminator|;
      return true;
    }

    // One turn of the attribute loop.
    method ParseAttribute() returns (attribute: Option<Attribute>)
      requires Valid()
      modifies this`position
      ensures Valid()
      ensures match AttributeAt(xml, old(position))
              case None => attribute.None?
              case Some(got) => attribute == Some(got.value) && position == got.end
    {
      hide Decode, Find, NameAt, SkipSpace;
      var name := ParseName();
      if name.None? { return None; }
      position := Skip(position);
      if position >= |xml| || xml[position] != '=' { return None; }
      position := position + 1;
      position := Skip(position);
      if position >= |xml| || (xml[position] != '\'' && xml[position] != '\"') { return None; }
      var start := position + 1;
      var end := FindText(xml, [xml[position]], start);
      if end == |xml| || '<' in xml[start..end] { return None; }
      var decoded := DecodeEntities(xml[start..end]);
      if decoded.None? { return None; }
      position := end + 1;
      return Some(Attribute(name.value, decoded.value));
    }

    method ParseAttributes() returns (attributes: Option<Attributes>)
      requires Valid()
      modifies this`position
      ensures Valid()
      ensures match AttributesAt(xml, old(position), [])
              case None => attributes.None?
              case Some(got) => attributes == Some(got.value) && position == got.end
    {
      hide AttributeAt, SkipSpace;
      var list: seq<Attribute> := [];
      while true
        invariant Valid() && AttributesAt(xml, old(position), []) == AttributesAt(xml, position, list)
        decreases |xml| - position
      {
        position := Skip(position);
        if position >= |xml| { return None; }
        if xml[position] == '>' {
          position := position + 1;
          return Some(Attributes(list, false));
        }
        if xml[position] == '/' {
          position := Skip(position + 1);
          if position >= |xml| || xml[position] != '>' { return None; }
          position := position + 1;
          return Some(Attributes(list, true));
        }
        var attribute := ParseAttribute();
        if attribute.None? || |list| >= MAX_ATTRIBUTES || HasName(list, attribute.value.name) { return None; }
        list := list + [attribute.value];
      }
    }

    // parse_end_element and parse_start_element: the tag is read and the machine makes its
    // step, or the manifest is refused.
    method ParseEndElement() returns (ok: bool)
      requires Valid()
      modifies this
      ensures Steps(old(Current()), EndAt(xml, old(position) + 2), ok)
    {
      hide NameAt, SkipSpace;
      if position + 2 > |xml| {
        assert NameAt(xml, position + 2).None? by { NoNameBeyond(xml, position + 2); }
        return false;
      }
      position := position + 2;
      var name := ParseName();
      if name.None? { return false; }
      position := Skip(position);
      if position >= |xml| || xml[position] != '>' { return false; }
      if stack == [] || stack[|stack| - 1].name != name.value { return false; }
      position := position + 1;
      stack := stack[..|stack| - 1];
      if stack == [] { rootClosed := true; }
      return true;
    }

    // What a step of the machine comes to.
    ghost predicate Steps(before: State, got: Option<Got<Token>>, ok: bool)
      reads this
    {
      && (ok <==> got.Some? && Step(before, got.value.value).Some?)
      && (ok ==> Valid() && Current() == Step(before, got.value.value).value && position == got.value.end)
    }

    method ParseStartElement() returns (ok: bool)
      requires Valid()
      modifies this
      ensures Steps(old(Current()), StartAt(xml, old(position) + 1), ok)
    {
      hide NameAt, AttributesAt, LocalName, ValueOf;
      if rootClosed || |stack| >= MAX_DEPTH { return false; }
      if position + 1 > |xml| {
        assert NameAt(xml, position + 1).None? by { NoNameBeyond(xml, position + 1); }
        return false;
      }
      position := position + 1;
      var name := ParseName();
      if name.None? { return false; }
      var attributes := ParseAttributes();
      if attributes.None? { return false; }
      var list := attributes.value.list;
      var node := Node(name.value, if stack == [] then None else stack[|stack| - 1].app);
      if stack == [] {
        if rootName.Some? { return false; }
        rootName := Some(LocalName(name.value));
      }
      node := Note(node, list);
      if !attributes.value.selfClosing { stack := stack + [node]; }
      else if stack == [] { rootClosed := true; }
      return true;
    }

    // The part of parse_start_element that fills the package information.
    method Note(node: Node, list: seq<Attribute>) returns (updated: Node)
      requires Valid() && (node.app.Some? ==> node.app.value < |info.applications|)
      modifies this`info
      ensures Valid() && info == Noted(old(info), node.name, list, node.app)
      ensures updated == Node(node.name, Inside(old(info), node.name, list, node.app))
      ensures updated.app.Some? ==> updated.app.value < |info.applications|
    {
      hide LocalName, ValueOf, IsIdentity, IsApplication, IsVisualElements;
      KindsDiffer(node.name);
      updated := node;
      if IsIdentity(node.name) {
        if ValueOf(list, "Name").Some? { info := info.(packageName := ValueOf(list, "Name").value); }
        if ValueOf(list, "Publisher").Some? { info := info.(publisher := ValueOf(list, "Publisher").value); }
        if ValueOf(list, "Version").Some? { info := info.(version := ValueOf(list, "Version").value); }
      } else if IsApplication(node.name) {
        var application := ApplicationOf(list);
        if application.executable != [] || application.id != [] {
          if info.mainExecutable.None? && application.executable != [] {
            info := info.(mainExecutable := Some(application.executable));
          }
          info := info.(applications := info.applications + [application]);
          updated := Node(node.name, Some(|info.applications| - 1));
        }
      } else if IsVisualElements(node.name) && node.app.Some? {
        var name := ValueOf(list, "DisplayName");
        if name.Some? {
          var i := node.app.value;
          info := info.(applications := info.applications[i := info.applications[i].(displayName := name.value)]);
        }
      }
    }

    // parse.
    method Parse() returns (result: Option<Info>)
      requires Valid() && Current() == START && position == 0
      modifies this
      ensures result == Manifest(xml)
    {
      hide StartAt, EndAt, TextAt, SkipAt, Step;
      position := Beginning(xml);
      while position < |xml|
        invariant Valid() && Manifest(xml) == Rest(xml, Current(), position)
        decreases |xml| - position
      {
        ghost var s, at := Current(), position;
        var ok;
        if xml[position] != '<' { ok := ParseText(); }
        else if OccursAt(xml, "<!--", position) { ok := SkipUntil(4, "-->"); SkipSteps(s); }
        else if OccursAt(xml, "<![CDATA[", position) { ok := SkipUntil(9, "]]>"); SkipSteps(s); }
        else if OccursAt(xml, "<?", position) { ok := SkipUntil(2, "?>"); SkipSteps(s); }
        else if OccursAt(xml, "<!", position) { ok := false; }
        else if OccursAt(xml, "</", position) { ok := ParseEndElement(); }
        else { ok := ParseStartElement(); }
        assert Steps(s, TokenAt(xml, at), ok);
        if !ok { return None; }
      }
      if rootName.None? || !rootClosed || stack != [] || rootName.value != "Package" { return None; }
      return Some(info);
    }

    // Text between tags: after the root only white space, and no broken entities.
    method ParseText() returns (ok: bool)
      requires Valid() && position < |xml| && xml[position] != '<'
      modifies this`position
      ensures Steps(old(Current()), TextAt(xml, old(position)), ok)
    {
      hide Decode, Find;
      var end := FindText(xml, ['<'], position + 1);
      var text := xml[position..end];
      if rootClosed {
        for i := 0 to |text|
          invariant IsBlank(text[..i])
        {
          if !IsSpace(text[i]) { return false; }
        }
        assert text[..|text|] == text;
      }
      var decoded := DecodeEntities(text);
      if decoded.None? { return false; }
      position := end;
      return true;
    }
  }

  lemma SkipSteps(s: State)
    ensures Step(s, Skipped) == Some(s)
  {
  }

  lemma NoNameBeyond(xml: string, at: nat)
    requires at > |xml|
    ensures NameAt(xml, at).None?
  {
  }

  lemma KindsDiffer(name: string)
    ensures IsIdentity(name) ==> !IsApplication(name) && !IsVisualElements(name)
    ensures IsApplication(name) ==> !IsVisualElements(name)
  {
    hide LocalName;
    assert |"Identity"| == 8 && |"Application"| == 11 && |"VisualElements"| == 14;
  }
}
