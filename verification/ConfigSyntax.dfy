/** config.c: the text form of keys and values, how it is written and how it is read. */
module ConfigSyntax {
  import opened Basics

  // ---- Characters ---------------------------------------------------------------------------

  predicate IsAlpha(c: char) {
    'a' <= c <= 'z' || 'A' <= c <= 'Z'
  }

  predicate IsKeyChar(c: char) {
    IsAlpha(c) || '0' <= c <= '9' || c == '-'
  }

  predicate IsSpace(c: char) {
    c == ' ' || c == '\t' || c == '\n' || c == '\r'
  }

  function Lower(c: char): char {
    if 'A' <= c <= 'Z' then 'a' + (c - 'A') else c
  }

  function LowerAll(s: string): (r: string)
    ensures |r| == |s| && forall i :: 0 <= i < |s| ==> r[i] == Lower(s[i])
  {
    seq(|s|, i requires 0 <= i < |s| => Lower(s[i]))
  }

  /** One character read; the end of the text reads as a newline. */
  datatype Next = Next(c: char, rest: string, eof: bool)

  /** get_next_char: CR LF reads as one newline. */
  function GetNext(s: string): (n: Next)
    ensures |n.rest| <= |s| && (!n.eof ==> |n.rest| < |s|) && (n.eof ==> n.rest == "" && n.c == '\n')
  {
    if s == "" then Next('\n', "", true)
    else if s[0] == '\r' && |s| > 1 && s[1] == '\n' then Next('\n', s[2..], false)
    else Next(s[0], s[1..], false)
  }

  // ---- Reading ------------------------------------------------------------------------------

  function Blanks(n: nat): (s: string)
    ensures |s| == n
  {
    if n == 0 then "" else " " + Blanks(n - 1)
  }

  /** What stands for an escaped character, if it may be escaped. */
  function Escape(c: char): Option<char> {
    if c == 't' then Some('\t')
    else if c == 'b' then Some(8 as char)
    else if c == 'n' then Some('\n')
    else if c == '\\' || c == '"' then Some(c)
    else None
  }

  /** A value read to its end, and the text behind it. */
  datatype Value = Value(text: string, rest: string)

  /** parse_value. */
  function ParseValue(s: string, acc: string, quote: bool, comment: bool, space: nat): (r: Option<Value>)
    ensures r.Some? ==> |r.value.rest| <= |s|
    decreases |s|
  {
    var n := GetNext(s);
    if n.c == '\n' then if quote then None else Some(Value(acc, n.rest))
    else if comment then ParseValue(n.rest, acc, quote, true, space)
    else if IsSpace(n.c) && !quote then ParseValue(n.rest, acc, quote, false, if acc != "" then space + 1 else space)
    else if !quote && (n.c == ';' || n.c == '#') then ParseValue(n.rest, acc, quote, true, space)
    else
      var filled := acc + Blanks(space);
      if n.c == '\\' then
        var e := GetNext(n.rest);
        if e.c == '\n' then ParseValue(e.rest, filled, quote, false, 0)
        else if Escape(e.c).None? then None
        else ParseValue(e.rest, filled + [Escape(e.c).value], quote, false, 0)
      else if n.c == '"' then ParseValue(n.rest, filled, !quote, false, 0)
      else ParseValue(n.rest, filled + [n.c], quote, false, 0)
  }

  /** A key with its value; a key alone has none. */
  datatype Event = Event(key: string, value: Option<string>)

  datatype Line = Line(event: Event, rest: string)

  /** get_value, from the second character of the name on. */
  function GetValue(s: string, name: string): (r: Option<Line>)
    ensures r.Some? ==> |r.value.rest| <= |s|
    decreases |s|
  {
    var n := GetNext(s);
    if !n.eof && IsKeyChar(n.c) then GetValue(n.rest, name + [Lower(n.c)])
    else AfterName(n, name)
  }

  /** What may follow a name: blanks, then the end of the line or an equals sign and a value. */
  function AfterName(n: Next, name: string): (r: Option<Line>)
    ensures r.Some? ==> |r.value.rest| <= |n.rest|
    decreases |n.rest|, !n.eof
  {
    if n.c == ' ' || n.c == '\t' then
      if n.eof then None else AfterName(GetNext(n.rest), name)
    else if n.c == '\n' then Some(Line(Event(name, None), n.rest))
    else if n.c != '=' then None
    else
      var v := ParseValue(n.rest, "", false, false, 0);
      if v.None? then None else Some(Line(Event(name, Some(v.value.text)), v.value.rest))
  }

  datatype Header = Header(name: string, rest: string)

  /** The subsection in quotes, from the first character behind the opening quote on. */
  function Subsection(s: string, name: string): (r: Option<Header>)
    ensures r.Some? ==> |r.value.rest| <= |s|
    decreases |s|
  {
    var n := GetNext(s);
    if n.c == '\n' then None
    else if n.c == '"' then
      var e := GetNext(n.rest);
      if e.c == ']' then Some(Header(name, e.rest)) else None
    else if n.c == '\\' then
      var e := GetNext(n.rest);
      if e.c == '\n' then None else Subsection(e.rest, name + [e.c])
    else Subsection(n.rest, name + [n.c])
  }

  /** get_extended_base_var, after the character `c`. */
  function ExtendedBaseVar(s: string, name: string, c: char): (r: Option<Header>)
    ensures r.Some? ==> |r.value.rest| <= |s|
    decreases |s|
  {
    if c == '\n' then None
    else
      var n := GetNext(s);
      if n.eof then None
      else if IsSpace(n.c) then ExtendedBaseVar(n.rest, name, n.c)
      else if n.c != '"' then None
      else Subsection(n.rest, name + ".")
  }

  /** get_base_var. */
  function BaseVar(s: string, name: string): (r: Option<Header>)
    ensures r.Some? ==> |r.value.rest| <= |s|
    decreases |s|
  {
    var n := GetNext(s);
    if n.eof then None
    else if n.c == ']' then Some(Header(name, n.rest))
    else if IsSpace(n.c) then ExtendedBaseVar(n.rest, name, n.c)
    else if !IsKeyChar(n.c) && n.c != '.' then None
    else BaseVar(n.rest, name + [Lower(n.c)])
  }

  /** The callbacks made, and whether the whole text was understood. */
  datatype Parse = Parse(events: seq<Event>, ok: bool)

  function With(e: Event, p: Parse): Parse {
    Parse([e] + p.events, p.ok)
  }

  const BOM: string := [0xEF as char, 0xBB as char, 0xBF as char]

  /** git_parse_source; `bom` characters of the byte order mark were seen, or all that matter. */
  function ParseSource(s: string, base: string, comment: bool, bom: nat): Parse
    decreases |s|
  {
    var n := GetNext(s);
    if bom < 3 && n.c == BOM[bom] && !n.eof then ParseSource(n.rest, base, comment, bom + 1)
    else if 0 < bom < 3 then Parse([], false)
    else if n.c == '\n' then if n.eof then Parse([], true) else ParseSource(n.rest, base, false, 3)
    else if comment || IsSpace(n.c) then ParseSource(n.rest, base, comment, 3)
    else if n.c == '#' || n.c == ';' then ParseSource(n.rest, base, true, 3)
    else if n.c == '[' then
      var h := BaseVar(n.rest, "");
      if h.None? || h.value.name == "" then Parse([], false)
      else ParseSource(h.value.rest, h.value.name + ".", false, 3)
    else if !IsAlpha(n.c) then Parse([], false)
    else
      var l := GetValue(n.rest, base + [Lower(n.c)]);
      if l.None? then Parse([], false) else With(l.value.event, ParseSource(l.value.rest, base, false, 3))
  }
}
