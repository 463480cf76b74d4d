/** config.c: what does not matter to the reader, and a sample of what does. */
module ConfigLines {
  import opened Basics
  import opened LineEndings
  import opened ConfigSyntax
  import opened ConfigRoundTrip

  // ---- Line ends ----------------------------------------------------------------------------

  /** The same text with a carriage return in front of each line feed. */
  function Dos(s: string): string {
    ToCrlf(s, false)
  }

  /** One character read: the same, with the same text behind it. */
  lemma NextAlike(s: string)
    requires '\r' !in s
    ensures var n := GetNext(s);
      GetNext(Dos(s)) == Next(n.c, Dos(n.rest), n.eof) && '\r' !in n.rest && n.c != '\r'
  {
    if s != "" {
      assert s == [s[0]] + s[1..] && s[0] in s;
      if s[0] == '\n' {
        assert Dos(s) == ['\r', '\n'] + Dos(s[1..]);
        assert Dos(s)[2..] == Dos(s[1..]);
      } else {
        assert Dos(s) == [s[0]] + Dos(s[1..]);
        assert Dos(s)[1..] == Dos(s[1..]);
      }
    }
  }

  lemma {:induction false} ValueAlike(s: string, acc: string, quote: bool, comment: bool, space: nat)
    requires '\r' !in s
    ensures var r := ParseValue(s, acc, quote, comment, space);
      && (r.Some? ==> '\r' !in r.value.rest)
      && ParseValue(Dos(s), acc, quote, comment, space) ==
         if r.None? then None else Some(Value(r.value.text, Dos(r.value.rest)))
    decreases |s|
  {
    NextAlike(s);
    var n := GetNext(s);
    hide Dos, GetNext, IsSpace, Escape, Blanks;
    if n.c != '\n' {
      if comment {
        ValueAlike(n.rest, acc, quote, true, space);
      } else if IsSpace(n.c) && !quote {
        ValueAlike(n.rest, acc, quote, false, if acc != "" then space + 1 else space);
      } else if !quote && (n.c == ';' || n.c == '#') {
        ValueAlike(n.rest, acc, quote, true, space);
      } else {
        var filled := acc + Blanks(space);
        if n.c == '\\' {
          NextAlike(n.rest);
          var e := GetNext(n.rest);
          if e.c == '\n' {
            ValueAlike(e.rest, filled, quote, false, 0);
          } else if Escape(e.c).Some? {
            ValueAlike(e.rest, filled + [Escape(e.c).value], quote, false, 0);
          }
        } else if n.c == '"' {
          ValueAlike(n.rest, filled, !quote, false, 0);
        } else {
          ValueAlike(n.rest, filled + [n.c], quote, false, 0);
        }
      }
    }
  }

  /** A line read from either text. */
  predicate LinesAlike(r: Option<Line>, d: Option<Line>) {
    (r.Some? ==> '\r' !in r.value.rest) && d == if r.None? then None else Some(Line(r.value.event, Dos(r.value.rest)))
  }

  lemma {:induction false} AfterNameAlike(n: Next, name: string)
    requires '\r' !in n.rest && |n.rest| >= 0
    ensures LinesAlike(AfterName(n, name), AfterName(Next(n.c, Dos(n.rest), n.eof), name))
    decreases |n.rest|, !n.eof
  {
    if n.c == ' ' || n.c == '\t' {
      if !n.eof {
        NextAlike(n.rest);
        AfterNameAlike(GetNext(n.rest), name);
      }
    } else if n.c == '=' {
      ValueAlike(n.rest, "", false, false, 0);
    }
  }

  lemma {:induction false} GetValueAlike(s: string, name: string)
    requires '\r' !in s
    ensures LinesAlike(GetValue(s, name), GetValue(Dos(s), name))
    decreases |s|
  {
    NextAlike(s);
    var n := GetNext(s);
    hide Dos, GetNext, LinesAlike, AfterName, IsKeyChar;
    if !n.eof && IsKeyChar(n.c) {
      GetValueAlike(n.rest, name + [Lower(n.c)]);
    } else {
      AfterNameAlike(n, name);
    }
  }

  predicate HeadersAlike(r: Option<Header>, d: Option<Header>) {
    (r.Some? ==> '\r' !in r.value.rest) && d == if r.None? then None else Some(Header(r.value.name, Dos(r.value.rest)))
  }

  lemma {:induction false} SubsectionAlike(s: string, name: string)
    requires '\r' !in s
    ensures HeadersAlike(Subsection(s, name), Subsection(Dos(s), name))
    decreases |s|
  {
    NextAlike(s);
    var n := GetNext(s);
    hide Dos, GetNext;
    if n.c == '"' || n.c == '\\' {
      NextAlike(n.rest);
      var e := GetNext(n.rest);
      if n.c == '\\' && e.c != '\n' {
        SubsectionAlike(e.rest, name + [e.c]);
      }
    } else if n.c != '\n' {
      SubsectionAlike(n.rest, name + [n.c]);
    }
  }

  lemma {:induction false} ExtendedAlike(s: string, name: string, c: char)
    requires '\r' !in s
    ensures HeadersAlike(ExtendedBaseVar(s, name, c), ExtendedBaseVar(Dos(s), name, c))
    decreases |s|
  {
    NextAlike(s);
    var n := GetNext(s);
    hide Dos, GetNext, IsSpace, Subsection;
    if c != '\n' && !n.eof {
      if IsSpace(n.c) {
        ExtendedAlike(n.rest, name, n.c);
      } else if n.c == '"' {
        SubsectionAlike(n.rest, name + ".");
      }
    }
  }

  lemma {:induction false} BaseVarAlike(s: string, name: string)
    requires '\r' !in s
    ensures HeadersAlike(BaseVar(s, name), BaseVar(Dos(s), name))
    decreases |s|
  {
    NextAlike(s);
    var n := GetNext(s);
    hide Dos, GetNext, IsSpace, IsKeyChar, ExtendedBaseVar;
    if !n.eof && n.c != ']' {
      if IsSpace(n.c) {
        ExtendedAlike(n.rest, name, n.c);
      } else if IsKeyChar(n.c) || n.c == '.' {
        BaseVarAlike(n.rest, name + [Lower(n.c)]);
      }
    }
  }

  /** A text whose lines end in CR LF makes the same callbacks as the one whose lines end in LF. */
  lemma {:induction false} CrlfReadAlike(s: string, base: string, comment: bool, bom: nat)
    requires '\r' !in s
    ensures ParseSource(Dos(s), base, comment, bom) == ParseSource(s, base, comment, bom)
    decreases |s|
  {
    NextAlike(s);
    var n := GetNext(s);
    hide Dos, GetNext, IsSpace, IsAlpha, BaseVar, GetValue;
    if bom < 3 && n.c == BOM[bom] && !n.eof {
      CrlfReadAlike(n.rest, base, comment, bom + 1);
    } else if !(0 < bom < 3) {
      if n.c == '\n' {
        if !n.eof {
          CrlfReadAlike(n.rest, base, false, 3);
        }
      } else if comment || IsSpace(n.c) {
        CrlfReadAlike(n.rest, base, comment, 3);
      } else if n.c == '#' || n.c == ';' {
        CrlfReadAlike(n.rest, base, true, 3);
      } else if n.c == '[' {
        BaseVarAlike(n.rest, "");
        var h := BaseVar(n.rest, "");
        if h.Some? && h.value.name != "" {
          CrlfReadAlike(h.value.rest, h.value.name + ".", false, 3);
        }
      } else if IsAlpha(n.c) {
        GetValueAlike(n.rest, base + [Lower(n.c)]);
        var l := GetValue(n.rest, base + [Lower(n.c)]);
        if l.Some? {
          CrlfReadAlike(l.value.rest, base, false, 3);
        }
      }
    }
  }

  // ---- Case ---------------------------------------------------------------------------------

  const UPPER: string := "ABCDEFGHIJKLMNOPQRSTUVWXYZ"
  const LOWER: string := "abcdefghijklmnopqrstuvwxyz"

  /** What a key is made of, and what counts as blank, by their codes. */
  lemma CharsAre(c: char)
    ensures IsAlpha(c) <==> 65 <= c as int <= 90 || 97 <= c as int <= 122
    ensures IsKeyChar(c) <==> IsAlpha(c) || 48 <= c as int <= 57 || c as int == 45
    ensures IsSpace(c) <==> c as int in {32, 9, 10, 13}
  {}

  /** Capital letters become small ones, and nothing else changes. */
  lemma LowerIs(c: char)
    ensures forall k :: 0 <= k < 26 ==> Lower(UPPER[k]) == LOWER[k]
    ensures c !in UPPER ==> Lower(c) == c
  {
    assert 'A' <= c <= 'Z' ==> c == UPPER[c as int - 65];
  }

  // ---- Keys ---------------------------------------------------------------------------------

  /** The beginning of what git_config_parse_key would leave as it is in front of the last dot. */
  ghost predicate GoodBase(x: string) {
    && (forall i :: 0 <= i < FirstDot(x) ==> IsKeyChar(x[i]) && Lower(x[i]) == x[i])
    && (forall i :: FirstDot(x) <= i < |x| ==> x[i] != '\n')
  }

  lemma {:induction false} DotStays(x: string, c: char)
    ensures FirstDot(x + [c]) == if FirstDot(x) < |x| then FirstDot(x) else if c == '.' then |x| else |x| + 1
  {
    if x != "" && x[0] != '.' {
      DotStays(x[1..], c);
      assert (x + [c])[1..] == x[1..] + [c];
    }
  }

  lemma LowerStays(c: char)
    ensures Lower(Lower(c)) == Lower(c) && (IsKeyChar(c) ==> IsKeyChar(Lower(c)) && Lower(c) != '\n')
    ensures IsAlpha(c) ==> IsAlpha(Lower(c)) && Lower(c) != '.'
    ensures IsKeyChar(c) ==> Lower(c) != '.'
  {}

  lemma BaseGrows(x: string, c: char)
    requires GoodBase(x)
    ensures c == '.' ==> GoodBase(x + [c])
    ensures IsKeyChar(c) ==> GoodBase(x + [Lower(c)])
    ensures FirstDot(x) < |x| && c != '\n' ==> GoodBase(x + [c]) && FirstDot(x + [c]) < |x + [c]|
    ensures FirstDot(x + ['.']) < |x + ['.']|
  {
    DotStays(x, c);
    DotStays(x, '.');
    DotStays(x, Lower(c));
    LowerStays(c);
    hide FirstDot, IsKeyChar, Lower;
  }

  lemma {:induction false} SubsectionGood(s: string, name: string)
    requires GoodBase(name) && FirstDot(name) < |name|
    ensures Subsection(s, name).Some? ==>
      GoodBase(Subsection(s, name).value.name) && Subsection(s, name).value.name != ""
    decreases |s|
  {
    hide GoodBase, FirstDot, GetNext;
    var n := GetNext(s);
    if n.c == '\\' {
      var e := GetNext(n.rest);
      if e.c != '\n' {
        BaseGrows(name, e.c);
        SubsectionGood(e.rest, name + [e.c]);
      }
    } else if n.c != '\n' && n.c != '"' {
      BaseGrows(name, n.c);
      SubsectionGood(n.rest, name + [n.c]);
    }
  }

  lemma {:induction false} ExtendedGood(s: string, name: string, c: char)
    requires GoodBase(name)
    ensures ExtendedBaseVar(s, name, c).Some? ==> GoodBase(ExtendedBaseVar(s, name, c).value.name)
    decreases |s|
  {
    hide GoodBase, FirstDot, GetNext, IsSpace, Subsection;
    var n := GetNext(s);
    if c != '\n' && !n.eof {
      if IsSpace(n.c) {
        ExtendedGood(n.rest, name, n.c);
      } else if n.c == '"' {
        BaseGrows(name, '.');
        assert name + "." == name + ['.'];
        SubsectionGood(n.rest, name + ".");
      }
    }
  }

  lemma {:induction false} BaseGood(s: string, name: string)
    requires GoodBase(name)
    ensures BaseVar(s, name).Some? ==> GoodBase(BaseVar(s, name).value.name)
    decreases |s|
  {
    hide GoodBase, FirstDot, GetNext, IsSpace, IsKeyChar, Lower, ExtendedBaseVar;
    var n := GetNext(s);
    if !n.eof && n.c != ']' {
      if IsSpace(n.c) {
        ExtendedGood(n.rest, name, n.c);
      } else if IsKeyChar(n.c) || n.c == '.' {
        BaseGrows(name, n.c);
        DotIsItself();
        BaseGood(n.rest, name + [Lower(n.c)]);
      }
    }
  }

  lemma DotIsItself()
    ensures Lower('.') == '.'
  {}

  /** A name as git_config_parse_key leaves it. */
  ghost predicate GoodName(name: string) {
    && name != "" && IsAlpha(name[0])
    && forall c :: c in name ==> IsKeyChar(c) && Lower(c) == c && c != '.'
  }

  lemma NameGrows(name: string, c: char)
    requires (name == "" && IsAlpha(c)) || (GoodName(name) && IsKeyChar(c))
    ensures GoodName(name + [Lower(c)])
  {
    LowerStays(c);
  }

  lemma {:induction false} LineGood(s: string, base: string, name: string)
    requires GoodName(name)
    ensures var l := GetValue(s, base + name);
      l.Some? ==> exists whole :: GoodName(whole) && l.value.event.key == base + whole
    decreases |s|
  {
    hide GoodName, GetNext, IsKeyChar, Lower, AfterName;
    var n := GetNext(s);
    if !n.eof && IsKeyChar(n.c) {
      NameGrows(name, n.c);
      assert base + name + [Lower(n.c)] == base + (name + [Lower(n.c)]);
      LineGood(n.rest, base, name + [Lower(n.c)]);
    } else {
      AfterNameKeeps(n, base + name);
    }
  }

  lemma {:induction false} AfterNameKeeps(n: Next, name: string)
    ensures AfterName(n, name).Some? ==> AfterName(n, name).value.event.key == name
    decreases |n.rest|, !n.eof
  {
    hide ParseValue;
    if (n.c == ' ' || n.c == '\t') && !n.eof {
      AfterNameKeeps(GetNext(n.rest), name);
    }
  }

  /** What git_config_parse_key accepts and leaves as it is; or, before any section, a name alone. */
  ghost predicate GoodKey(key: string) {
    || GoodName(key)
    || exists x, name :: KeyParts(x, name, key) && KeyAccepted(x, name) && NormalBase(x) == x && LowerAll(name) == name
  }

  predicate KeyParts(x: string, name: string, key: string) {
    key == x + "." + name
  }

  lemma GoodParts(x: string, name: string)
    requires GoodBase(x) && x != "" && GoodName(name)
    ensures GoodKey(x + "." + name)
  {
    assert KeyAccepted(x, name);
    var lower := LowerAll(x[..FirstDot(x)]);
    assert forall i :: 0 <= i < FirstDot(x) ==> lower[i] == Lower(x[..FirstDot(x)][i]) == x[i];
    assert lower == x[..FirstDot(x)];
    assert NormalBase(x) == x;
    assert LowerAll(name) == name;
    assert KeyParts(x, name, x + "." + name);
  }

  /** Every key the reader reports is one that git_config_parse_key accepts and leaves as it is. */
  lemma {:induction false} KeysRead(s: string, x: string, inSection: bool, comment: bool, bom: nat)
    requires if inSection then GoodBase(x) && x != "" else x == ""
    ensures forall e :: e in ParseSource(s, if inSection then x + "." else "", comment, bom).events ==> GoodKey(e.key)
    decreases |s|
  {
    hide GoodBase, GoodName, GoodKey, GetNext, IsSpace, IsAlpha, BaseVar, GetValue, Lower;
    var base := if inSection then x + "." else "";
    var n := GetNext(s);
    if bom < 3 && n.c == BOM[bom] && !n.eof {
      KeysRead(n.rest, x, inSection, comment, bom + 1);
    } else if !(0 < bom < 3) {
      if n.c == '\n' {
        if !n.eof {
          KeysRead(n.rest, x, inSection, false, 3);
        }
      } else if comment || IsSpace(n.c) {
        KeysRead(n.rest, x, inSection, comment, 3);
      } else if n.c == '#' || n.c == ';' {
        KeysRead(n.rest, x, inSection, true, 3);
      } else if n.c == '[' {
        var h := BaseVar(n.rest, "");
        NothingGood();
        BaseGood(n.rest, "");
        if h.Some? && h.value.name != "" {
          KeysRead(h.value.rest, h.value.name, true, false, 3);
        }
      } else if IsAlpha(n.c) {
        var l := GetValue(n.rest, base + [Lower(n.c)]);
        if l.Some? {
          NameGrows("", n.c);
          assert "" + [Lower(n.c)] == [Lower(n.c)];
          LineGood(n.rest, base, [Lower(n.c)]);
          var whole :| GoodName(whole) && l.value.event.key == base + whole;
          LineKey(x, inSection, whole);
          KeysRead(l.value.rest, x, inSection, false, 3);
        }
      }
    }
  }

  lemma LineKey(x: string, inSection: bool, whole: string)
    requires GoodName(whole) && if inSection then GoodBase(x) && x != "" else x == ""
    ensures GoodKey((if inSection then x + "." else "") + whole)
  {
    if inSection {
      GoodParts(x, whole);
    } else {
      assert "" + whole == whole;
    }
  }

  lemma NothingGood()
    ensures GoodBase("")
  {}

  // ---- Samples ------------------------------------------------------------------------------

  lemma NextReads(c: char, rest: string)
    requires c != '\r'
    ensures GetNext([c] + rest) == Next(c, rest, false)
  {
    assert ([c] + rest)[1..] == rest;
  }

  lemma NoBlanks(acc: string)
    ensures acc + Blanks(0) == acc
  {}

  lemma ValueNext(c: char, rest: string, acc: string)
    requires c !in "\r\n \t;#\"\\"
    ensures ParseValue([c] + rest, acc, false, false, 0) == ParseValue(rest, acc + [c], false, false, 0)
  {
    NextReads(c, rest);
    NoBlanks(acc);
    hide GetNext, Blanks;
  }

  lemma EscapeNext(c: char, rest: string, acc: string, e: char)
    requires c !in "\r\n" && Escape(c) == Some(e)
    ensures ParseValue(['\\'] + ([c] + rest), acc, false, false, 0) == ParseValue(rest, acc + [e], false, false, 0)
  {
    NextReads('\\', [c] + rest);
    NextReads(c, rest);
    NoBlanks(acc);
    hide GetNext, Blanks, Escape;
  }

  lemma ValueEnds(acc: string)
    ensures ParseValue(['\n'] + "", acc, false, false, 0) == Some(Value(acc, ""))
    ensures ParseValue([';'] + (['\n'] + ""), acc, false, false, 0) == Some(Value(acc, ""))
  {
    NextReads('\n', "");
    NextReads(';', ['\n'] + "");
    hide GetNext;
    assert ParseValue(['\n'] + "", acc, false, true, 0) == Some(Value(acc, ""));
  }

  /** All escapes there are: tab, backspace, newline, backslash and quote. */
  lemma EscapesRead()
    ensures ParseValue(['\\'] + (['t'] + (['\\'] + (['b'] + (['\\'] + (['n'] + (['\\'] + (['\\'] + (['\\'] + (['"'] +
      (['\n'] + "")))))))))), "", false, false, 0) ==
      Some(Value("" + [9 as char] + [8 as char] + [10 as char] + ['\\'] + ['"'], ""))
  {
    EscapesAre();
    hide *;
    var r4 := ['\n'] + "";
    var r3 := ['\\'] + (['"'] + r4);
    var r2 := ['\\'] + (['\\'] + r3);
    var r1 := ['\\'] + (['n'] + r2);
    var r0 := ['\\'] + (['b'] + r1);
    var a := "" + [9 as char] + [8 as char] + [10 as char];
    EscapeNext('t', r0, "", 9 as char);
    EscapeNext('b', r1, "" + [9 as char], 8 as char);
    EscapeNext('n', r2, "" + [9 as char] + [8 as char], 10 as char);
    EscapeNext('\\', r3, a, '\\');
    EscapeNext('"', r4, a + ['\\'], '"');
    ValueEnds(a + ['\\'] + ['"']);
  }

  lemma EscapesAre()
    ensures Escape('t') == Some(9 as char) && Escape('b') == Some(8 as char) && Escape('n') == Some(10 as char)
    ensures Escape('\\') == Some('\\') && Escape('"') == Some('"')
    ensures forall c :: c !in "tbn\\\"" ==> Escape(c) == None
  {}

  lemma OneVariable(rest: string)
    requires GetNext(rest) == Next('=', ['C'] + ([';'] + (['\n'] + "")), false)
    ensures GetValue(rest, "a.b") == Some(Line(Event("a.b", Some("" + ['C'])), ""))
  {
    ValueNext('C', [';'] + (['\n'] + ""), "");
    ValueEnds("" + ['C']);
    hide GetNext, ParseValue;
  }

  lemma OneSection(inner: string, line: string)
    requires GetNext(inner) == Next('A', [']'] + line, false)
    ensures BaseVar(inner, "") == Some(Header("" + ['a'], line))
  {
    NextReads(']', line);
    hide GetNext;
    assert BaseVar([']'] + line, "" + ['a']) == Some(Header("" + ['a'], line));
  }

  lemma NothingMoreToRead()
    ensures ParseSource("", "a.", false, 3) == Parse([], true)
  {}

  /** A section, a variable with a value, and a comment: "[A]", then "b=C;". */
  lemma SampleRead()
    ensures ParseSource(['['] + (['A'] + ([']'] + (['\n'] + (['b'] + (['='] + (['C'] + ([';'] + (['\n'] + "")))))))),
      "", false, 0) == Parse([Event("a.b", Some("" + ['C']))], true)
  {
    var after := ['='] + (['C'] + ([';'] + (['\n'] + "")));
    var line := ['\n'] + (['b'] + after);
    var inner := ['A'] + ([']'] + line);
    NextReads('=', ['C'] + ([';'] + (['\n'] + "")));
    OneVariable(after);
    NextReads('A', [']'] + line);
    OneSection(inner, line);
    NextReads('b', after);
    NextReads('\n', ['b'] + after);
    NextReads('[', inner);
    NothingMoreToRead();
    SampleNames();
    hide GetNext, BaseVar, GetValue;
    var e := Event("a.b", Some("" + ['C']));
    assert With(e, Parse([], true)) == Parse([e], true);
    assert ParseSource(['b'] + after, "a.", false, 3) == Parse([e], true);
    assert ParseSource(line, "a.", false, 3) == Parse([e], true);
  }

  lemma SampleNames()
    ensures "a." + ['b'] == "a.b" && "" + ['a'] + "." == "a." && "" + ['a'] != ""
  {}
}
