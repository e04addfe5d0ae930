// Strings and numbers of the catalog file: escape_json_string, unescape_json_string,
// parse_json_string and parse_json_uint64 (src/catalog/app_catalog.cpp). Characters stand
// for bytes.
module JsonText {

  datatype Option<+T> = None | Some(value: T)

  // A parse result, and what is left of the text.
  datatype Parsed<+T> = Parsed(value: Option<T>, rest: string)

  const MAX_U64: nat := 0xFFFF_FFFF_FFFF_FFFF

  // ---------------------------------------------------------------- escaping

  function HexDigit(d: nat): char
    requires d < 16
  {
    if d < 10 then ('0' as int + d) as char else ('a' as int + d - 10) as char
  }

  function EscapeChar(c: char): string {
    if c == '\"' then ['\\', '\"']
    else if c == '\\' then ['\\', '\\']
    else if c as int == 8 then ['\\', 'b']
    else if c as int == 12 then ['\\', 'f']
    else if c == '\n' then ['\\', 'n']
    else if c == '\r' then ['\\', 'r']
    else if c == '\t' then ['\\', 't']
    else if c as int < 32 then ['\\', 'u', '0', '0', HexDigit(c as int / 16), HexDigit(c as int % 16)]
    else [c]
  }

  function Escape(s: string): string {
    if s == [] then [] else EscapeChar(s[0]) + Escape(s[1..])
  }

  function HexValue(c: char): int {
    if '0' <= c <= '9' then c as int - '0' as int
    else if 'a' <= c <= 'f' then c as int - 'a' as int + 10
    else if 'A' <= c <= 'F' then c as int - 'A' as int + 10
    else -1
  }

  // The value of four hexadecimal digits, or -1.
  function Hex4(a: char, b: char, c: char, d: char): int {
    var w, x, y, z := HexValue(a), HexValue(b), HexValue(c), HexValue(d);
    if w < 0 || x < 0 || y < 0 || z < 0 then -1 else ((w * 16 + x) * 16 + y) * 16 + z
  }

  function Utf8(code: nat): string
  {
    if code <= 0x7F then [code as char]
    else if code <= 0x7FF then [(0xC0 + code / 64) as char, (0x80 + code % 64) as char]
    else if code <= 0xFFFF then
      [(0xE0 + code / 4096) as char, (0x80 + code / 64 % 64) as char, (0x80 + code % 64) as char]
    else if code <= 0x10FFFF then
      [(0xF0 + code / 262144) as char, (0x80 + code / 4096 % 64) as char, (0x80 + code / 64 % 64) as char,
       (0x80 + code % 64) as char]
    else []
  }

  datatype Piece = Piece(text: string, length: nat)

  // What follows a backslash and a u: a code point, perhaps written as a surrogate pair, or
  // nothing that can be read. length counts the backslash.
  function UnicodePiece(s: string): (p: Piece)
    requires |s| >= 2
    ensures 2 <= p.length <= |s|
  {
    if |s| < 6 || Hex4(s[2], s[3], s[4], s[5]) < 0 then Piece(['u'], 2)
    else
      var code := Hex4(s[2], s[3], s[4], s[5]);
      var low := if |s| >= 12 && s[6] == '\\' && s[7] == 'u' then Hex4(s[8], s[9], s[10], s[11]) else -1;
      if 0xD800 <= code <= 0xDBFF && 0xDC00 <= low <= 0xDFFF then
        Piece(Utf8(0x10000 + (code - 0xD800) * 1024 + (low - 0xDC00)), 12)
      else if code < 0xD800 || code > 0xDFFF then Piece(Utf8(code), 6)
      else Piece([], 6)
  }

  // The first escape sequence or character of s.
  function FirstPiece(s: string): (p: Piece)
    requires s != []
    ensures 1 <= p.length <= |s|
  {
    if s[0] == '\\' && |s| > 1 then
      if s[1] == 'b' then Piece([8 as char], 2)
      else if s[1] == 'f' then Piece([12 as char], 2)
      else if s[1] == 'n' then Piece(['\n'], 2)
      else if s[1] == 'r' then Piece(['\r'], 2)
      else if s[1] == 't' then Piece(['\t'], 2)
      else if s[1] == 'u' then UnicodePiece(s)
      else Piece([s[1]], 2)
    else Piece([s[0]], 1)
  }

  function Unescape(s: string): string {
    if s == [] then [] else FirstPiece(s).text + Unescape(s[FirstPiece(s).length..])
  }

  method EscapeString(input: string) returns (output: string)
    ensures output == Escape(input)
  {
    hide EscapeChar;
    output := [];
    assert input[0..] == input;
    for i := 0 to |input|
      invariant Escape(input) == output + Escape(input[i..])
    {
      assert input[i..][0] == input[i] && input[i..][1..] == input[i + 1..];
      output := output + EscapeChar(input[i]);
    }
  }

  method UnescapeString(input: string) returns (output: string)
    ensures output == Unescape(input)
  {
    hide FirstPiece;
    output := [];
    var i := 0;
    assert input[0..] == input;
    while i < |input|
      invariant i <= |input| && Unescape(input) == output + Unescape(input[i..])
    {
      var piece := FirstPiece(input[i..]);
      assert input[i..][piece.length..] == input[i + piece.length..];
      output := output + piece.text;
      i := i + piece.length;
    }
  }

  // Every character survives, whatever comes after it.
  lemma EscapedCharReads(c: char, t: string)
    ensures FirstPiece(EscapeChar(c) + t) == Piece([c], |EscapeChar(c)|)
  {
    var s := EscapeChar(c) + t;
    if c as int < 32 && EscapeChar(c)[1] == 'u' {
      HexRoundTrip(c as int / 16);
      HexRoundTrip(c as int % 16);
      assert s[2] == '0' && s[3] == '0' && s[4] == HexDigit(c as int / 16) && s[5] == HexDigit(c as int % 16);
      assert Hex4(s[2], s[3], s[4], s[5]) == c as int;
    }
  }

  lemma HexRoundTrip(d: nat)
    requires d < 16
    ensures HexValue(HexDigit(d)) == d
  {
  }

  lemma {:induction false} UnescapeEscape(s: string)
    ensures Unescape(Escape(s)) == s
  {
    if s != [] {
      var t := Escape(s[1..]);
      EscapedCharReads(s[0], t);
      assert (EscapeChar(s[0]) + t)[|EscapeChar(s[0])|..] == t;
      UnescapeEscape(s[1..]);
    }
  }

  // ---------------------------------------------------------------- quoted strings

  predicate IsSpace(c: char) { c == ' ' || 9 <= c as int <= 13 }

  function SkipSpace(s: string): (r: string)
    ensures |r| <= |s|
    ensures r != [] ==> !IsSpace(r[0])
  {
    if s != [] && IsSpace(s[0]) then SkipSpace(s[1..]) else s
  }

  // Where the closing quote is, not looking at quotes after a backslash; |s| if nowhere.
  function Close(s: string, escaped: bool): (n: nat)
    ensures n <= |s|
  {
    if s == [] then 0
    else if !escaped && s[0] == '\"' then 0
    else 1 + Close(s[1..], !escaped && s[0] == '\\')
  }

  function ParseString(s: string): (p: Parsed<string>)
    ensures |p.rest| <= |s| && (p.value.Some? ==> |p.rest| < |s|)
  {
    var t := SkipSpace(s);
    if t == [] || t[0] != '\"' then Parsed(None, t)
    else
      var body := t[1..];
      var n := Close(body, false);
      if n >= |body| then Parsed(None, body) else Parsed(Some(Unescape(body[..n])), body[n + 1..])
  }

  method SkipWhitespace(src: string) returns (rest: string)
    ensures rest == SkipSpace(src)
  {
    rest := src;
    while rest != [] && IsSpace(rest[0])
      invariant SkipSpace(src) == SkipSpace(rest)
      decreases |rest|
    {
      rest := rest[1..];
    }
  }

  method ParseJsonString(src: string) returns (value: Option<string>, rest: string)
    ensures Parsed(value, rest) == ParseString(src)
  {
    rest := SkipWhitespace(src);
    if rest == [] || rest[0] != '\"' { return None, rest; }
    rest := rest[1..];
    var end, escaped := 0, false;
    assert rest[0..] == rest;
    while end < |rest|
      invariant end <= |rest| && Close(rest, false) == end + Close(rest[end..], escaped)
      decreases |rest| - end
    {
      assert rest[end..][1..] == rest[end + 1..];
      if escaped { escaped := false; }
      else if rest[end] == '\\' { escaped := true; }
      else if rest[end] == '\"' { break; }
      end := end + 1;
    }
    if end >= |rest| { return None, rest; }
    var text := UnescapeString(rest[..end]);
    return Some(text), rest[end + 1..];
  }

  lemma CloseSkips(c: char, t: string)
    ensures Close(EscapeChar(c) + t, false) == |EscapeChar(c)| + Close(t, false)
  {
    var s := EscapeChar(c) + t;
    if |EscapeChar(c)| == 1 { assert s[1..] == t; }
    else if |EscapeChar(c)| == 2 { assert s[1..][1..] == t; }
    else {
      assert Close(s, false) == 1 + Close(s[1..], true);
      assert s[1..][1..] == s[2..] && Close(s[1..], true) == 1 + Close(s[2..], false);
      CloseOnPlain(s, 2);
      CloseOnPlain(s, 3);
      CloseOnPlain(s, 4);
      CloseOnPlain(s, 5);
      assert s[6..] == t;
    }
  }

  lemma CloseOnPlain(s: string, i: nat)
    requires i < |s| && s[i] != '\"' && s[i] != '\\'
    ensures Close(s[i..], false) == 1 + Close(s[i + 1..], false)
  {
    assert s[i..][1..] == s[i + 1..];
  }

  lemma {:induction false} CloseAfterEscape(s: string, rest: string)
    ensures Close(Escape(s) + ['\"'] + rest, false) == |Escape(s)|
  {
    if s == [] { assert Escape(s) + ['\"'] + rest == ['\"'] + rest; }
    else {
      var t := Escape(s[1..]) + ['\"'] + rest;
      assert Escape(s) + ['\"'] + rest == EscapeChar(s[0]) + t;
      CloseSkips(s[0], t);
      CloseAfterEscape(s[1..], rest);
    }
  }

  function Quoted(s: string): string { ['\"'] + Escape(s) + ['\"'] }

  // A quoted string reads back, and nothing more is consumed.
  lemma QuotedReads(s: string, rest: string)
    ensures ParseString(Quoted(s) + rest) == Parsed(Some(s), rest)
  {
    var t := Quoted(s) + rest;
    var body := Escape(s) + ['\"'] + rest;
    assert t[0] == '\"' && t[1..] == body;
    CloseAfterEscape(s, rest);
    UnescapeEscape(s);
    assert body[..|Escape(s)|] == Escape(s);
    assert body[|Escape(s)| + 1..] == rest;
  }

  lemma {:induction false} SpaceSkipped(space: string, t: string)
    requires forall i :: 0 <= i < |space| ==> IsSpace(space[i])
    ensures SkipSpace(space + t) == SkipSpace(t)
  {
    if space == [] { assert space + t == t; }
    else {
      assert (space + t)[1..] == space[1..] + t;
      SpaceSkipped(space[1..], t);
    }
  }

  // ---------------------------------------------------------------- numbers

  predicate IsDigit(c: char) { '0' <= c <= '9' }

  function Decimal(n: nat): string {
    if n < 10 then [('0' as int + n) as char] else Decimal(n / 10) + [('0' as int + n % 10) as char]
  }

  // Reading digits on top of a value; a value beyond 64 bits is refused.
  function ReadDigits(s: string, value: nat): (p: Parsed<nat>)
    ensures |p.rest| <= |s|
  {
    if s == [] || !IsDigit(s[0]) then Parsed(Some(value), s)
    else
      var digit := s[0] as int - '0' as int;
      if value > (MAX_U64 - digit) / 10 then Parsed(None, s) else ReadDigits(s[1..], value * 10 + digit)
  }

  function ParseUint(s: string): (p: Parsed<nat>)
    ensures |p.rest| <= |s|
  {
    var t := SkipSpace(s);
    if t == [] || !IsDigit(t[0]) then Parsed(None, t) else ReadDigits(t, 0)
  }

  method ParseJsonUint64(src: string) returns (value: Option<nat>, rest: string)
    ensures Parsed(value, rest) == ParseUint(src)
  {
    rest := SkipWhitespace(src);
    if rest == [] || !IsDigit(rest[0]) { return None, rest; }
    var sum: nat := 0;
    ghost var start := rest;
    while rest != [] && IsDigit(rest[0])
      invariant ReadDigits(start, 0) == ReadDigits(rest, sum)
      decreases |rest|
    {
      var digit := rest[0] as int - '0' as int;
      if sum > (MAX_U64 - digit) / 10 { return None, rest; }
      sum := sum * 10 + digit;
      rest := rest[1..];
    }
    return Some(sum), rest;
  }

  lemma {:induction false} DecimalReads(n: nat, more: string)
    requires n <= MAX_U64
    ensures ReadDigits(Decimal(n) + more, 0) == ReadDigits(more, n)
    decreases n
  {
    var last := ('0' as int + n % 10) as char;
    if n < 10 {
      assert (Decimal(n) + more)[1..] == more;
    } else {
      assert Decimal(n) + more == Decimal(n / 10) + ([last] + more);
      DecimalReads(n / 10, [last] + more);
      assert ([last] + more)[1..] == more;
      assert n / 10 * 10 + n % 10 == n;
    }
  }

  lemma {:induction false} DecimalStarts(n: nat)
    ensures Decimal(n) != [] && IsDigit(Decimal(n)[0])
  {
    if n >= 10 { DecimalStarts(n / 10); }
  }

  lemma NumberReads(n: nat, rest: string)
    requires n <= MAX_U64 && (rest == [] || !IsDigit(rest[0]))
    ensures ParseUint(Decimal(n) + rest) == Parsed(Some(n), rest)
  {
    DecimalStarts(n);
    DecimalReads(n, rest);
    assert (Decimal(n) + rest)[0] == Decimal(n)[0];
  }
}
