/** config.c: writing a section and a pair, and reading them back. */
module ConfigRoundTrip {
  import opened Basics
  import opened ConfigSyntax

  // ---- Writing ------------------------------------------------------------------------------

  /** Quotes and backslashes get a backslash in front. */
  function EscapeSub(s: string): string {
    if s == "" then "" else (if s[0] == '"' || s[0] == '\\' then ['\\', s[0]] else [s[0]]) + EscapeSub(s[1..])
  }

  function EscapeOne(c: char): (s: string)
    ensures s != ""
  {
    if c == '\n' then "\\n" else if c == '\t' then "\\t" else if c == '"' || c == '\\' then ['\\', c] else [c]
  }

  function EscapeValue(v: string): string {
    if v == "" then "" else EscapeOne(v[0]) + EscapeValue(v[1..])
  }

  /** The value is put in quotes: it begins or ends with a blank, or a character in it would begin a comment. */
  predicate NeedsQuotes(v: string) {
    || (v != "" && v[0] == ' ')
    || ';' in v || '#' in v
    || (v != "" && v[|v| - 1] == ' ')
  }

  function FirstDot(s: string): (k: nat)
    ensures k <= |s| && (k < |s| ==> s[k] == '.') && forall i :: 0 <= i < k ==> s[i] != '.'
  {
    if s == "" || s[0] == '.' then 0 else 1 + FirstDot(s[1..])
  }

  /** store_write_section, for the part of the key before its last dot. */
  function SectionText(base: string): string {
    var dot := FirstDot(base);
    if dot < |base| then "[" + (base[..dot] + (" \"" + (EscapeSub(base[dot + 1..]) + "\"]\n")))
    else "[" + (base + "]\n")
  }

  /** store_write_pair. */
  function PairText(name: string, v: string): string {
    var q := if NeedsQuotes(v) then "\"" else "";
    "\t" + (name + (" = " + (q + (EscapeValue(v) + (q + "\n")))))
  }

  // ---- How it looks -------------------------------------------------------------------------

  lemma {:induction false} NothingEscaped(v: string)
    requires forall c :: c in v ==> c !in "\n\t\"\\"
    ensures EscapeValue(v) == v && EscapeSub(v) == v
  {
    if v != "" {
      assert v == [v[0]] + v[1..] && v[0] in v;
      NothingEscaped(v[1..]);
    }
  }

  /** A plain value stands behind a tab, the name and an equals sign between blanks. */
  lemma PlainWritten(name: string, v: string)
    requires (forall c :: c in v ==> c !in "\n\t\"\\;#") && (v != "" ==> v[0] != ' ' && v[|v| - 1] != ' ')
    ensures PairText(name, v) == "\t" + (name + (" = " + (v + "\n")))
  {
    NothingEscaped(v);
    assert v != "" ==> v[0] in v;
    assert "" + (v + ("" + "\n")) == v + "\n";
    hide EscapeValue;
  }

  /** A value with blanks at its ends or a comment character stands in quotes. */
  lemma QuotedWritten(name: string, v: string)
    requires (forall c :: c in v ==> c !in "\n\t\"\\") && v != ""
    requires v[0] == ' ' || v[|v| - 1] == ' ' || ';' in v || '#' in v
    ensures PairText(name, v) == "\t" + (name + (" = " + ("\"" + (v + ("\"" + "\n")))))
  {
    NothingEscaped(v);
    hide EscapeValue;
  }

  lemma {:induction false} NoDot(s: string, more: string)
    requires '.' !in s && (more == "" || more[0] == '.')
    ensures FirstDot(s + more) == |s|
  {
    if s != "" {
      assert (s + more)[1..] == s[1..] + more && s[0] in s;
      NoDot(s[1..], more);
    } else {
      assert s + more == more;
    }
  }

  /** A section stands in brackets, a subsection in quotes behind a blank. */
  lemma SectionWritten(section: string, sub: string)
    requires '.' !in section && forall c :: c in sub ==> c !in "\n\t\"\\"
    ensures SectionText(section) == "[" + (section + "]\n")
    ensures SectionText(section + ("." + sub)) == "[" + (section + (" \"" + (sub + "\"]\n")))
  {
    NoDot(section, "");
    NoDot(section, "." + sub);
    NothingEscaped(sub);
    hide EscapeSub, FirstDot;
    assert section + "" == section;
    var base := section + ("." + sub);
    assert base[..|section|] == section && base[|section| + 1..] == sub;
  }

  // ---- Keys ---------------------------------------------------------------------------------

  /** What git_config_parse_key accepts, for a key split at its last dot. */
  predicate KeyAccepted(base: string, name: string) {
    && base != "" && name != "" && IsAlpha(name[0]) && '.' !in name
    && (forall i :: 0 <= i < |name| ==> IsKeyChar(name[i]))
    && (forall i :: 0 <= i < FirstDot(base) ==> IsKeyChar(base[i]))
    && (forall i :: FirstDot(base) <= i < |base| ==> base[i] != '\n')
  }

  /** The part before the first dot in lower case. */
  function NormalBase(base: string): (r: string)
    ensures |r| == |base|
  {
    LowerAll(base[..FirstDot(base)]) + base[FirstDot(base)..]
  }

  // ---- Reading single characters ------------------------------------------------------------

  lemma NextIs(c: char, rest: string)
    requires c != '\r' || rest == "" || rest[0] != '\n'
    ensures GetNext([c] + rest) == Next(c, rest, false)
  {
    assert ([c] + rest)[1..] == rest;
  }

  // ---- Reading back a value -----------------------------------------------------------------

  /** What was escaped never begins with a newline. */
  lemma NoNewlineFirst(v: string, tail: string)
    requires tail != "" && tail[0] != '\n'
    ensures EscapeValue(v) + tail != "" && (EscapeValue(v) + tail)[0] != '\n'
  {
    if v != "" {
      assert EscapeValue(v)[0] == EscapeOne(v[0])[0];
    }
  }

  lemma NoNewlineIn(v: string, tail: string)
    requires v != ""
    ensures EscapeValue(v) + tail != "" && (EscapeValue(v) + tail)[0] != '\n'
  {
    assert EscapeValue(v)[0] == EscapeOne(v[0])[0];
  }

  /** One character of a value is read back, whatever it is; blanks outside quotes are kept for later. */
  lemma OneReadBack(c: char, rest: string, acc: string, quote: bool, space: nat)
    requires c != '\r' || (quote && rest != "" && rest[0] != '\n')
    requires quote || (c != ' ' && c != ';' && c != '#')
    ensures ParseValue(EscapeOne(c) + rest, acc, quote, false, space) ==
            ParseValue(rest, acc + Blanks(space) + [c], quote, false, 0)
  {
    if |EscapeOne(c)| == 2 {
      var d := EscapeOne(c)[1];
      assert EscapeOne(c) + rest == ['\\'] + ([d] + rest);
      NextIs('\\', [d] + rest);
      NextIs(d, rest);
    } else {
      NextIs(c, rest);
    }
  }

  /** Inside quotes every value is read back as it was. */
  lemma {:induction false} QuotedReadBack(v: string, acc: string, rest: string)
    ensures ParseValue(EscapeValue(v) + ("\"\n" + rest), acc, true, false, 0) == Some(Value(acc + v, rest))
  {
    hide ParseValue, EscapeValue, EscapeOne, Blanks;
    var tail := "\"\n" + rest;
    if v == "" {
      QuotesEnd(acc, rest);
      assert acc + v == acc;
    } else {
      EscapedParts(v, tail);
      NoNewlineFirst(v[1..], tail);
      OneReadBack(v[0], EscapeValue(v[1..]) + tail, acc, true, 0);
      QuotedReadBack(v[1..], acc + [v[0]], rest);
      NoBlanks(acc);
      assert acc + v == acc + [v[0]] + v[1..];
    }
  }

  lemma NoBlanks(acc: string)
    ensures acc + Blanks(0) == acc
  {}

  /** The closing quote and the end of the line. */
  lemma QuotesEnd(acc: string, rest: string)
    ensures ParseValue(EscapeValue("") + ("\"\n" + rest), acc, true, false, 0) == Some(Value(acc, rest))
  {
    assert EscapeValue("") + ("\"\n" + rest) == ['"'] + (['\n'] + rest);
    NoBlanks(acc);
    NextIs('"', ['\n'] + rest);
    NextIs('\n', rest);
  }

  /** A blank outside quotes is counted, unless nothing was read yet. */
  lemma BlankRead(rest: string, acc: string, space: nat)
    ensures ParseValue([' '] + rest, acc, false, false, space) ==
            ParseValue(rest, acc, false, false, if acc != "" then space + 1 else space)
  {
    NextIs(' ', rest);
  }

  lemma {:induction false} BlanksAppend(n: nat)
    ensures Blanks(n + 1) == Blanks(n) + [' ']
  {
    if n > 0 {
      BlanksAppend(n - 1);
    }
  }

  /** Outside quotes a value without carriage returns and comment characters is read back, up to blanks at its ends. */
  lemma {:induction false} PlainReadBack(v: string, acc: string, space: nat, rest: string)
    requires '\r' !in v && ';' !in v && '#' !in v
    requires if v == "" then space == 0 else v[|v| - 1] != ' '
    requires acc == "" ==> space == 0 && (v != "" ==> v[0] != ' ')
    ensures ParseValue(EscapeValue(v) + ("\n" + rest), acc, false, false, space) ==
      Some(Value(acc + Blanks(space) + v, rest))
  {
    var tail := "\n" + rest;
    if v == "" {
      assert EscapeValue(v) + tail == ['\n'] + rest && acc + Blanks(0) + v == acc;
      NextIs('\n', rest);
    } else {
      var c := v[0];
      EscapedParts(v, tail);
      hide ParseValue, EscapeValue, EscapeOne, Blanks;
      if c == ' ' {
        assert |v| > 1;
        EscapedBlank();
        BlankRead(EscapeValue(v[1..]) + tail, acc, space);
        PlainReadBack(v[1..], acc, space + 1, rest);
        BlanksAppend(space);
        TakeOne(acc, Blanks(space), v, "");
      } else {
        OneReadBack(c, EscapeValue(v[1..]) + tail, acc, false, space);
        PlainReadBack(v[1..], acc + Blanks(space) + [c], 0, rest);
        TakeOne(acc, Blanks(space), v, Blanks(0));
      }
    }
  }

  lemma EscapedParts(v: string, tail: string)
    requires v != ""
    ensures EscapeValue(v) + tail == EscapeOne(v[0]) + (EscapeValue(v[1..]) + tail)
  {
    Assoc(EscapeOne(v[0]), EscapeValue(v[1..]), tail);
  }

  lemma EscapedBlank()
    ensures EscapeOne(' ') == [' ']
  {
  }

  lemma TakeOne(acc: string, b: string, v: string, none: string)
    requires v != "" && none == ""
    ensures acc + b + [v[0]] + none + v[1..] == acc + b + v == acc + (b + [v[0]]) + v[1..]
  {
    assert v == [v[0]] + v[1..];
  }

  /** Outside quotes no carriage return is ever read into a value. */
  lemma {:induction false} NoReturnRead(v: string, acc: string, space: nat, rest: string)
    requires '\r' !in acc && ';' !in v && '#' !in v
    ensures var r := ParseValue(EscapeValue(v) + ("\n" + rest), acc, false, false, space);
      r.Some? ==> '\r' !in r.value.text
  {
    var tail := "\n" + rest;
    NoReturnInBlanks(space);
    if v == "" {
      assert EscapeValue(v) + tail == ['\n'] + rest;
      NextIs('\n', rest);
    } else {
      var c := v[0];
      Assoc(EscapeOne(c), EscapeValue(v[1..]), tail);
      if c == ' ' {
        BlankRead(EscapeValue(v[1..]) + tail, acc, space);
        NoReturnRead(v[1..], acc, if acc != "" then space + 1 else space, rest);
      } else if c != '\r' {
        OneReadBack(c, EscapeValue(v[1..]) + tail, acc, false, space);
        NoReturnRead(v[1..], acc + Blanks(space) + [c], 0, rest);
      } else {
        ReturnRead(EscapeValue(v[1..]) + tail, acc, space);
        if v[1..] == "" {
          assert EscapeValue(v[1..]) + tail == tail;
        } else {
          NoNewlineIn(v[1..], tail);
          NoReturnRead(v[1..], acc, if acc != "" then space + 1 else space, rest);
        }
      }
    }
  }

  /** Outside quotes a carriage return is a blank, or belongs to the end of the line. */
  lemma ReturnRead(rest: string, acc: string, space: nat)
    ensures ParseValue(['\r'] + rest, acc, false, false, space) ==
            if rest != "" && rest[0] == '\n' then Some(Value(acc, rest[1..]))
            else ParseValue(rest, acc, false, false, if acc != "" then space + 1 else space)
  {
    var s := ['\r'] + rest;
    if rest != "" && rest[0] == '\n' {
      assert s[1] == '\n' && s[2..] == rest[1..];
    } else {
      NextIs('\r', rest);
    }
  }

  lemma {:induction false} NoReturnInBlanks(n: nat)
    ensures '\r' !in Blanks(n)
  {
    if n > 0 {
      NoReturnInBlanks(n - 1);
    }
  }

  // ---- Reading back a pair ------------------------------------------------------------------

  /** The value part of a line is read back exactly if it has no carriage return or stands in quotes. */
  lemma ValueReadBack(v: string, rest: string)
    ensures var q := if NeedsQuotes(v) then "\"" else "";
      var r := ParseValue(" " + (q + (EscapeValue(v) + (q + "\n" + rest))), "", false, false, 0);
      && ('\r' !in v || NeedsQuotes(v) ==> r == Some(Value(v, rest)))
      && ('\r' in v && !NeedsQuotes(v) ==> r.Some? ==> r.value.text != v)
  {
    if NeedsQuotes(v) {
      var s := EscapeValue(v) + ("\"\n" + rest);
      assert "\"" + "\n" + rest == "\"\n" + rest;
      BlankRead("\"" + s, "", 0);
      NextIs('"', s);
      assert "" + Blanks(0) == "";
      QuotedReadBack(v, "", rest);
      assert "" + v == v;
    } else {
      var s := EscapeValue(v) + ("\n" + rest);
      assert "" + "\n" + rest == "\n" + rest && "" + s == s;
      BlankRead(s, "", 0);
      if '\r' !in v {
        PlainReadBack(v, "", 0, rest);
        assert "" + Blanks(0) + v == v;
      } else {
        NoReturnRead(v, "", 0, rest);
      }
    }
  }

  /** The name, and the separator behind it. */
  lemma {:induction false} NameReadBack(name: string, acc: string, tail: string)
    requires forall i :: 0 <= i < |name| ==> IsKeyChar(name[i])
    ensures GetValue(name + (" =" + tail), acc) ==
            var v := ParseValue(tail, "", false, false, 0);
            if v.None? then None else Some(Line(Event(acc + LowerAll(name), Some(v.value.text)), v.value.rest))
  {
    hide GetValue, ParseValue, LowerAll, Lower, IsKeyChar;
    var end := " =" + tail;
    if name == "" {
      assert name + end == end;
      NameEnds(acc, tail);
      LoweredNone(acc);
    } else {
      assert name + end == [name[0]] + (name[1..] + end);
      NameCharRead(name[0], name[1..] + end, acc);
      NameReadBack(name[1..], acc + [Lower(name[0])], tail);
      LowerFirst(acc, name);
    }
  }

  lemma LoweredNone(acc: string)
    ensures acc + LowerAll("") == acc
  {}

  /** The separator behind a name. */
  lemma NameEnds(acc: string, tail: string)
    ensures GetValue(" =" + tail, acc) ==
            var v := ParseValue(tail, "", false, false, 0);
            if v.None? then None else Some(Line(Event(acc, Some(v.value.text)), v.value.rest))
  {
    hide ParseValue;
    assert " =" + tail == [' '] + (['='] + tail);
    NextIs(' ', ['='] + tail);
    NextIs('=', tail);
    assert AfterName(Next(' ', ['='] + tail, false), acc) == AfterName(Next('=', tail, false), acc);
  }

  /** One character of a name. */
  lemma NameCharRead(c: char, rest: string, acc: string)
    requires IsKeyChar(c)
    ensures GetValue([c] + rest, acc) == GetValue(rest, acc + [Lower(c)])
  {
    NextIs(c, rest);
  }

  /**
   * A written pair is one callback, with the value as it was exactly if it has no carriage return or
   * stands in quotes.
   */
  lemma PairReadBack(base: string, name: string, v: string)
    requires name != "" && IsAlpha(name[0]) && forall i :: 0 <= i < |name| ==> IsKeyChar(name[i])
    ensures var p := ParseSource(PairText(name, v), base, false, 3);
      p == Parse([Event(base + LowerAll(name), Some(v))], true) <==> '\r' !in v || NeedsQuotes(v)
  {
    hide ParseSource, ParseValue, GetValue, EscapeValue, NeedsQuotes, PairText, LowerAll, IsKeyChar, IsAlpha;
    var q := if NeedsQuotes(v) then "\"" else "";
    var tail := " " + (q + (EscapeValue(v) + (q + "\n")));
    var line := name[1..] + (" =" + tail);
    PairParts(name, v, q, tail, line);
    TailReadBack(v, q, tail);
    NameReadBack(name[1..], base + [Lower(name[0])], tail);
    LowerFirst(base, name);
    ReadLine(base, name[0], line);
    var r := ParseValue(tail, "", false, false, 0);
    EndOfText(base);
    OneEvent(base + LowerAll(name), v, r, ParseSource(PairText(name, v), base, false, 3), base);
  }

  lemma TailReadBack(v: string, q: string, tail: string)
    requires q == (if NeedsQuotes(v) then "\"" else "") && tail == " " + (q + (EscapeValue(v) + (q + "\n")))
    ensures var r := ParseValue(tail, "", false, false, 0);
      && ('\r' !in v || NeedsQuotes(v) ==> r == Some(Value(v, "")))
      && ('\r' in v && !NeedsQuotes(v) ==> r.Some? ==> r.value.text != v)
  {
    ValueReadBack(v, "");
    assert q + "\n" + "" == q + "\n";
  }

  lemma LowerFirst(base: string, name: string)
    requires name != ""
    ensures base + LowerAll(name) == base + [Lower(name[0])] + LowerAll(name[1..])
  {
  }

  /** The single callback carries the value that was read. */
  lemma OneEvent(key: string, v: string, r: Option<Value>, p: Parse, base: string)
    requires p == if r.None? then Parse([], false)
                  else With(Event(key, Some(r.value.text)), ParseSource(r.value.rest, base, false, 3))
    ensures r == Some(Value(v, "")) ==> p == With(Event(key, Some(v)), ParseSource("", base, false, 3))
    ensures (r.Some? ==> r.value.text != v) ==> p != Parse([Event(key, Some(v))], true)
  {
    hide ParseSource;
    if r.Some? {
      assert p.events[0] == Event(key, Some(r.value.text));
    }
  }

  lemma PairParts(name: string, v: string, q: string, tail: string, line: string)
    requires name != "" && q == (if NeedsQuotes(v) then "\"" else "") &&
      tail == " " + (q + (EscapeValue(v) + (q + "\n")))
    requires line == name[1..] + (" =" + tail)
    ensures PairText(name, v) == ['\t'] + ([name[0]] + line)
  {
    assert " = " + (q + (EscapeValue(v) + (q + "\n"))) == " =" + tail;
    assert name == [name[0]] + name[1..];
  }

  /** A line that begins with a tab and a letter. */
  lemma ReadLine(base: string, c: char, line: string)
    requires IsAlpha(c)
    ensures var l := GetValue(line, base + [Lower(c)]);
      ParseSource(['\t'] + ([c] + line), base, false, 3) ==
      if l.None? then Parse([], false) else With(l.value.event, ParseSource(l.value.rest, base, false, 3))
  {
    NextIs('\t', [c] + line);
    NextIs(c, line);
    hide GetValue;
  }

  lemma EndOfText(base: string)
    ensures ParseSource("", base, false, 3) == Parse([], true)
    ensures forall e :: With(e, Parse([], true)) == Parse([e], true)
  {
  }

  // ---- Reading back a section ---------------------------------------------------------------

  /** A subsection is read back, whatever it contains but newlines. */
  lemma {:induction false} SubReadBack(sub: string, acc: string, tail: string)
    requires '\n' !in sub
    ensures Subsection(EscapeSub(sub) + ("\"]" + tail), acc) == Some(Header(acc + sub, tail))
  {
    hide EscapeSub, Subsection;
    var end := "\"]" + tail;
    if sub == "" {
      SubEnds(acc, tail);
      assert acc + sub == acc;
    } else {
      SubFirst(sub[1..], end);
      SubOneRead(sub, end, acc);
      SubReadBack(sub[1..], acc + [sub[0]], tail);
      assert acc + sub == acc + [sub[0]] + sub[1..];
    }
  }

  lemma SubEnds(acc: string, tail: string)
    ensures Subsection(EscapeSub("") + ("\"]" + tail), acc) == Some(Header(acc, tail))
  {
    assert EscapeSub("") + ("\"]" + tail) == ['"'] + ([']'] + tail);
    NextIs('"', [']'] + tail);
    NextIs(']', tail);
  }

  /** One character of a subsection. */
  lemma SubOneRead(sub: string, end: string, acc: string)
    requires '\n' !in sub && sub != ""
    requires EscapeSub(sub[1..]) + end != "" && (EscapeSub(sub[1..]) + end)[0] != '\n'
    ensures Subsection(EscapeSub(sub) + end, acc) == Subsection(EscapeSub(sub[1..]) + end, acc + [sub[0]])
  {
    var c, rest := sub[0], EscapeSub(sub[1..]) + end;
    if c == '"' || c == '\\' {
      assert EscapeSub(sub) + end == ['\\'] + ([c] + rest);
      NextIs('\\', [c] + rest);
    } else {
      assert EscapeSub(sub) + end == [c] + rest;
    }
    NextIs(c, rest);
  }

  lemma SubFirst(sub: string, end: string)
    requires '\n' !in sub && end != "" && end[0] != '\n'
    ensures EscapeSub(sub) + end != "" && (EscapeSub(sub) + end)[0] != '\n'
  {
    if sub != "" {
      assert sub[0] in sub;
    }
  }

  /** The characters of a section name, before whatever follows. */
  lemma {:induction false} BaseReadBack(sec: string, acc: string, tail: string)
    requires forall i :: 0 <= i < |sec| ==> IsKeyChar(sec[i])
    ensures BaseVar(sec + tail, acc) == BaseVar(tail, acc + LowerAll(sec))
  {
    if sec == "" {
      assert sec + tail == tail && acc + LowerAll(sec) == acc;
    } else {
      assert sec + tail == [sec[0]] + (sec[1..] + tail);
      NextIs(sec[0], sec[1..] + tail);
      BaseReadBack(sec[1..], acc + [Lower(sec[0])], tail);
      assert acc + LowerAll(sec) == acc + [Lower(sec[0])] + LowerAll(sec[1..]);
    }
  }

  /** The head of a subsection. */
  lemma ExtendedReadBack(acc: string, sub: string, tail: string)
    requires '\n' !in sub
    ensures BaseVar(" \"" + (EscapeSub(sub) + ("\"]" + tail)), acc) == Some(Header(acc + "." + sub, tail))
  {
    var s := EscapeSub(sub) + ("\"]" + tail);
    assert " \"" + s == [' '] + (['"'] + s);
    NextIs(' ', ['"'] + s);
    NextIs('"', s);
    SubReadBack(sub, acc + ".", tail);
  }

  lemma PlainSection(acc: string, tail: string)
    ensures BaseVar("]" + tail, acc) == Some(Header(acc, tail))
  {
    NextIs(']', tail);
  }

  /** A written section header sets the beginning of the keys that follow. */
  lemma SectionReadBack(base: string, rest: string)
    requires base != "" && '\n' !in base[FirstDot(base)..]
    requires forall i :: 0 <= i < FirstDot(base) ==> IsKeyChar(base[i]) && Lower(base[i]) == base[i]
    ensures ParseSource(SectionText(base) + rest, "", false, 0) == ParseSource(rest, base + ".", false, 3)
  {
    var dot := FirstDot(base);
    if dot < |base| {
      assert base == base[..dot] + "." + base[dot + 1..];
      LongSection(base[..dot], base[dot + 1..], base, rest);
    } else {
      ShortSection(base, rest);
    }
  }

  lemma LongSection(sec: string, sub: string, base: string, rest: string)
    requires base == sec + "." + sub && |sec| == FirstDot(base) && '\n' !in sub
    requires forall i :: 0 <= i < |sec| ==> IsKeyChar(sec[i]) && Lower(sec[i]) == sec[i]
    ensures ParseSource(SectionText(base) + rest, "", false, 0) == ParseSource(rest, base + ".", false, 3)
  {
    var tail := "\n" + rest;
    var s := " \"" + (EscapeSub(sub) + ("\"]" + tail));
    assert base[..|sec|] == sec && base[|sec| + 1..] == sub;
    assert LowerAll(sec) == sec && "" + sec == sec;
    BaseReadBack(sec, "", s);
    SubGroups(sec, EscapeSub(sub), rest);
    hide ParseSource, BaseVar, EscapeSub;
    ExtendedReadBack(sec, sub, tail);
    HeaderRead(sec + s, base, tail, rest);
  }

  lemma ShortSection(base: string, rest: string)
    requires base != "" && FirstDot(base) == |base|
    requires forall i :: 0 <= i < |base| ==> IsKeyChar(base[i]) && Lower(base[i]) == base[i]
    ensures ParseSource(SectionText(base) + rest, "", false, 0) == ParseSource(rest, base + ".", false, 3)
  {
    var tail := "\n" + rest;
    assert LowerAll(base) == base && "" + base == base;
    assert SectionText(base) + rest == ['['] + (base + ("]" + tail));
    BaseReadBack(base, "", "]" + tail);
    hide ParseSource, BaseVar, SectionText;
    PlainSection(base, tail);
    HeaderRead(base + ("]" + tail), base, tail, rest);
  }

  lemma SubGroups(sec: string, e: string, rest: string)
    ensures "[" + (sec + (" \"" + (e + "\"]\n"))) + rest == ['['] + (sec + (" \"" + (e + ("\"]" + ("\n" + rest)))))
  {
    assert e + "\"]\n" + rest == e + ("\"]" + ("\n" + rest));
    assert " \"" + (e + "\"]\n") + rest == " \"" + (e + ("\"]" + ("\n" + rest)));
    assert sec + (" \"" + (e + "\"]\n")) + rest == sec + (" \"" + (e + ("\"]" + ("\n" + rest))));
  }

  lemma HeaderRead(s: string, name: string, tail: string, rest: string)
    requires BaseVar(s, "") == Some(Header(name, tail)) && name != "" && tail == "\n" + rest
    ensures ParseSource(['['] + s, "", false, 0) == ParseSource(rest, name + ".", false, 3)
  {
    NextIs('[', s);
    NextIs('\n', rest);
    hide BaseVar;
  }

  // ---- The round trip -----------------------------------------------------------------------

  lemma {:induction false} SameDot(s: string, t: string)
    requires |s| == |t| && forall i :: 0 <= i < |s| ==> (s[i] == '.' <==> t[i] == '.')
    ensures FirstDot(s) == FirstDot(t)
  {
    if s != "" && s[0] != '.' {
      SameDot(s[1..], t[1..]);
    }
  }

  lemma NormalIsAccepted(base: string, name: string)
    requires KeyAccepted(base, name)
    ensures var nb := NormalBase(base);
      && nb != "" && FirstDot(nb) == FirstDot(base) && '\n' !in nb[FirstDot(nb)..]
      && forall i :: 0 <= i < FirstDot(nb) ==> IsKeyChar(nb[i]) && Lower(nb[i]) == nb[i]
  {
    var nb, dot := NormalBase(base), FirstDot(base);
    forall i | 0 <= i < |base| ensures nb[i] == if i < dot then Lower(base[i]) else base[i] {}
    SameDot(base, nb);
  }

  /**
   * Writing a section and a pair for an accepted key and reading the text makes exactly one callback,
   * with the normalised key and the value, if and only if the value has no carriage return or is one
   * of those that are put in quotes.
   */
  lemma WriteReadRoundTrip(base: string, name: string, v: string)
    requires KeyAccepted(base, name)
    ensures var nb, nn := NormalBase(base), LowerAll(name);
      ParseSource(SectionText(nb) + PairText(nn, v), "", false, 0) == Parse([Event(nb + "." + nn, Some(v))], true)
      <==> '\r' !in v || NeedsQuotes(v)
  {
    var nb, nn := NormalBase(base), LowerAll(name);
    NormalIsAccepted(base, name);
    SectionReadBack(nb, PairText(nn, v));
    assert LowerAll(nn) == nn;
    PairReadBack(nb + ".", nn, v);
  }
}
