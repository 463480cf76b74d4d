/** config.c: the reader and the writer themselves. */
module ConfigFile {
  import opened Basics
  import opened ConfigSyntax
  import opened ConfigRoundTrip
  import opened ConfigLines

  /** How many lines end in a text. */
  ghost function Newlines(s: string): nat {
    if s == "" then 0 else Newlines(s[..|s| - 1]) + if s[|s| - 1] == '\n' then 1 else 0
  }

  lemma NoNewline()
    ensures Newlines("") == 0
  {}

  lemma NewlinesNext(s: string, k: nat)
    requires k < |s|
    ensures Newlines(s[..k + 1]) == Newlines(s[..k]) + if s[k] == '\n' then 1 else 0
  {
    assert s[..k + 1][..k] == s[..k];
  }

  predicate EndsInBackslash(s: string) {
    s != "" && s[|s| - 1] == '\\'
  }

  lemma Backslash(text: string, pos: nat)
    requires 0 < pos <= |text| && text[pos - 1] == '\\'
    ensures pos == |text| ==> EndsInBackslash(text)
  {}

  /** `line` is the number of the line that ends at `end`; one more is possible if the text ends in a backslash. */
  ghost predicate LineSeen(text: string, line: int, end: nat) {
    && 0 < end <= |text| + 1 && (end <= |text| ==> text[end - 1] == '\n')
    && (line == 1 + Newlines(text[..end - 1])
        || (end == |text| + 1 && EndsInBackslash(text) && line == 2 + Newlines(text)))
  }

  /** Each of the callbacks has seen its line. */
  ghost predicate AllSeen(text: string, made: nat, lines: seq<int>, ends: seq<nat>) {
    |lines| == made == |ends| && forall k :: 0 <= k < made ==> LineSeen(text, lines[k], ends[k])
  }

  lemma NoneSeen(text: string)
    ensures AllSeen(text, 0, [], [])
  {}

  /** A line has ended at `pos`, or the text has. */
  lemma JustSeen(text: string, pos: nat, eofs: nat)
    requires pos <= |text| && eofs <= 2 && (eofs == 2 ==> EndsInBackslash(text))
    requires if eofs > 0 then pos == |text| else pos > 0 && text[pos - 1] == '\n'
    ensures LineSeen(text, Newlines(text[..pos]) + eofs, if eofs > 0 then |text| + 1 else pos)
  {
    assert text[..|text|] == text;
    if eofs == 0 {
      NewlinesNext(text, pos - 1);
    }
  }

  /** A configuration text being read, with the buffers the reader uses. */
  class ConfigSource {
    const text: string
    /** Whether the callback takes the last of the events, after all those before it. */
    const accepts: seq<Event> -> bool
    var pos: nat
    var eof: bool
    var linenr: int
    var value: string
    var name: string
    /** The callbacks made, and the line number each has seen. */
    var events: seq<Event>
    var lines: seq<int>
    /** How often the end of the text has been read. */
    ghost var eofs: nat
    /** Where each callback was made. */
    ghost var ends: seq<nat>

    constructor (text: string, accepts: seq<Event> -> bool)
      ensures this.text == text && this.accepts == accepts && Fresh()
    {
      this.text, this.accepts, pos, eof, linenr, value, name := text, accepts, 0, false, 1, "", "";
      events, lines, eofs, ends := [], [], 0, [];
    }

    ghost predicate Fresh()
      reads this
    {
      pos == 0 && !eof && eofs == 0 && linenr == 1 && events == [] && lines == [] && ends == []
    }

    ghost predicate Valid()
      reads this
    {
      pos <= |text| && (eof ==> pos == |text|) && (eof <==> eofs > 0)
    }

    /** The line of the next character; the end of the text ends a line each time it is read. */
    ghost function Line(): int
      requires Valid()
      reads this
    {
      1 + Newlines(text[..pos]) + eofs
    }

    /** The line number in use is right, or that of the line just ended. */
    ghost predicate NearLine()
      requires Valid()
      reads this
    {
      Line() - 1 <= linenr <= Line()
    }

    ghost predicate AtLineEnd()
      requires Valid()
      reads this
    {
      eof || (pos > 0 && text[pos - 1] == '\n')
    }

    ghost predicate LinesSeen()
      reads this
    {
      AllSeen(text, |events|, lines, ends)
    }

    /** The text still to be read. */
    ghost function Rest(): string
      requires Valid()
      reads this
    {
      text[pos..]
    }

    /** get_next_char. */
    method GetNextChar() returns (c: char)
      requires Valid()
      modifies this`pos, this`eof, this`linenr, this`eofs
      ensures Valid() && c == GetNext(old(Rest())).c && Rest() == GetNext(old(Rest())).rest
      ensures eof == GetNext(old(Rest())).eof && pos >= old(pos)
      ensures if eof then c == '\n' && pos == old(pos) && eofs == old(eofs) + 1
              else pos > old(pos) && c == text[pos - 1] && eofs == 0
      ensures linenr == old(linenr) + if c == '\n' then 1 else 0
      ensures linenr - Line() == old(linenr - Line())
    {
      ghost var s := Rest();
      if pos == |text| {
        eof, linenr, eofs := true, linenr + 1, eofs + 1;
        return '\n';
      }
      c := text[pos];
      NewlinesNext(text, pos);
      pos := pos + 1;
      assert s[1..] == text[pos..];
      if c == '\r' && pos < |text| && text[pos] == '\n' {
        assert s[2..] == text[pos + 1..];
        NewlinesNext(text, pos);
        pos := pos + 1;
        c := '\n';
      }
      if c == '\n' {
        linenr := linenr + 1;
      }
    }

    /** parse_value; the value is left in the buffer. */
    method ParseValue() returns (ok: bool)
      requires Valid()
      modifies this`pos, this`eof, this`linenr, this`eofs, this`value
      ensures Valid() && pos >= old(pos)
      ensures old(linenr == Line()) ==> NearLine() && (ok ==> linenr == Line())
      ensures ok ==> AtLineEnd() && eofs <= old(eofs) + 2
      ensures ok && !old(eof) && eofs == 2 ==> EndsInBackslash(text)
      ensures var r := ConfigSyntax.ParseValue(old(Rest()), "", false, false, 0);
        ok == r.Some? && (ok ==> r == Some(Value(value, Rest())))
    {
      hide ConfigSyntax.ParseValue, GetNext, Blanks, Escape, IsSpace, Newlines, EndsInBackslash;
      value := "";
      var quote, comment := false, false;
      ghost var whole, fits, ended := ConfigSyntax.ParseValue(Rest(), "", false, false, 0), linenr == Line(), eof;
      var space: nat := 0;
      while true
        invariant Valid() && pos >= old(pos)
        invariant fits ==> linenr == Line()
        invariant eofs <= old(eofs) + 1 && (!ended && eof ==> EndsInBackslash(text))
        invariant ConfigSyntax.ParseValue(Rest(), value, quote, comment, space) == whole
        decreases |text| - pos
      {
        ValueStep(Rest(), value, quote, comment, space);
        InText();
        var c := GetNextChar();
        if c == '\n' {
          if quote {
            linenr := linenr - 1;
            return false;
          }
          return true;
        }
        InText();
        assert !eof;
        if comment {
          continue;
        }
        if IsSpace(c) && !quote {
          if value != "" {
            space := space + 1;
          }
          continue;
        }
        if !quote && (c == ';' || c == '#') {
          comment := true;
          continue;
        }
        value, space := value + Blanks(space), 0;
        if c == '\\' {
          Backslash(text, pos);
          c := GetNextChar();
          if c == '\n' {
            InText();
            continue;
          }
          var e := Escape(c);
          if e.None? {
            return false;
          }
          value := value + [e.value];
        } else if c == '"' {
          quote := !quote;
        } else {
          value := value + [c];
        }
        InText();
      }
    }

    /** get_value: the rest of a name, then perhaps a value; the callback is made with both. */
    method GetValue() returns (ok: bool)
      requires Valid() && linenr == Line() && !eof && LinesSeen()
      modifies this
      ensures Valid() && pos >= old(pos) && NearLine() && LinesSeen()
      ensures var l := ConfigSyntax.GetValue(old(Rest()), old(name));
        if l.None? then !ok && events == old(events)
        else
          && events == old(events) + [l.value.event] && Rest() == l.value.rest && ok == accepts(events)
          && linenr == Line()
    {
      hide ConfigSyntax.GetValue, ConfigSyntax.ParseValue, GetNext, IsKeyChar, Newlines, Lower, AllSeen, AfterName;
      ghost var n := GetNext(Rest());
      NameStep(Rest(), name);
      var c := GetNextChar();
      while !eof && IsKeyChar(c)
        invariant Valid() && pos >= old(pos) && events == old(events) && LinesSeen()
        invariant linenr == Line() && eofs <= 1 && (c == '\n' ==> AtLineEnd()) && (eof ==> c == '\n')
        invariant c == n.c && eof == n.eof && Rest() == n.rest && (n.eof ==> n.c == '\n')
        invariant ConfigSyntax.GetValue(old(Rest()), old(name)) ==
                  if !n.eof && IsKeyChar(n.c) then ConfigSyntax.GetValue(n.rest, name + [Lower(n.c)])
                  else AfterName(n, name)
        decreases |text| - pos, !eof
      {
        name := name + [Lower(c)];
        NameStep(Rest(), name);
        n := GetNext(Rest());
        c := GetNextChar();
      }
      while c == ' ' || c == '\t'
        invariant Valid() && pos >= old(pos) && events == old(events) && LinesSeen()
        invariant linenr == Line() && eofs <= 1 && (c == '\n' ==> AtLineEnd()) && (eof ==> c == '\n')
        invariant c == n.c && eof == n.eof && Rest() == n.rest && (n.eof ==> n.c == '\n')
        invariant ConfigSyntax.GetValue(old(Rest()), old(name)) == AfterName(n, name)
        decreases |text| - pos, !eof
      {
        BlankStep(n, name);
        n := GetNext(Rest());
        c := GetNextChar();
      }
      BlankStep(n, name);
      var found: Option<string> := None;
      if c != '\n' {
        if c != '=' {
          return false;
        }
        ok := ParseValue();
        if !ok {
          return;
        }
        found := Some(value);
      }
      ok := CallBack(found);
    }

    /** Make a callback: the end of the line has been read, but it is to see the line's number. */
    method CallBack(found: Option<string>) returns (ok: bool)
      requires Valid() && linenr == Line() && LinesSeen()
      requires AtLineEnd() && eofs <= 2 && (eofs == 2 ==> EndsInBackslash(text))
      modifies this`linenr, this`events, this`lines, this`ends
      ensures Valid() && linenr == Line() && LinesSeen()
      ensures events == old(events) + [Event(name, found)] && ok == accepts(events)
    {
      hide Newlines, LineSeen;
      linenr := linenr - 1;
      events, lines := events + [Event(name, found)], lines + [linenr];
      ends := ends + [if eof then |text| + 1 else pos];
      ok := accepts(events);
      linenr := linenr + 1;
      JustSeen(text, pos, eofs);
    }

    /** get_extended_base_var, after the character `c`. */
    method GetExtendedBaseVar(c0: char) returns (ok: bool)
      requires Valid()
      modifies this`pos, this`eof, this`linenr, this`eofs, this`name
      ensures Valid() && pos >= old(pos) && (old(linenr == Line()) ==> NearLine() && (ok ==> linenr == Line()))
      ensures var h := ExtendedBaseVar(old(Rest()), old(name), c0);
        ok == h.Some? && (ok ==> h == Some(Header(name, Rest())))
    {
      hide Subsection, GetNext, Newlines;
      var c := c0;
      var again := true;
      while again
        invariant Valid() && pos >= old(pos) && name == old(name) && (old(linenr == Line()) ==> linenr == Line())
        invariant again ==> ExtendedBaseVar(old(Rest()), name, c0) == ExtendedBaseVar(Rest(), name, c)
        invariant !again ==>
          ExtendedBaseVar(old(Rest()), name, c0) == if c != '"' then None else Subsection(Rest(), name + ".")
        decreases again, |text| - pos, c != '\n'
      {
        if c == '\n' {
          linenr := linenr - 1;
          return false;
        }
        c := GetNextChar();
        again := IsSpace(c);
      }
      if c != '"' {
        return false;
      }
      name := name + ".";
      ok := GetSubsection();
    }

    /** The loop over the subsection, and the closing bracket. */
    method GetSubsection() returns (ok: bool)
      requires Valid()
      modifies this`pos, this`eof, this`linenr, this`eofs, this`name
      ensures Valid() && pos >= old(pos) && (old(linenr == Line()) ==> NearLine() && (ok ==> linenr == Line()))
      ensures var h := Subsection(old(Rest()), old(name)); ok == h.Some? && (ok ==> h == Some(Header(name, Rest())))
    {
      hide GetNext, Newlines;
      while true
        invariant Valid() && pos >= old(pos) && (old(linenr == Line()) ==> linenr == Line())
        invariant Subsection(Rest(), name) == Subsection(old(Rest()), old(name))
        decreases |text| - pos
      {
        InText();
        var c := GetNextChar();
        if c == '\n' {
          linenr := linenr - 1;
          return false;
        }
        if c == '"' {
          break;
        }
        if c == '\\' {
          c := GetNextChar();
          if c == '\n' {
            linenr := linenr - 1;
            return false;
          }
        }
        name := name + [c];
        InText();
      }
      var last := GetNextChar();
      ok := last == ']';
    }

    /** get_base_var. */
    method GetBaseVar() returns (ok: bool)
      requires Valid()
      modifies this`pos, this`eof, this`linenr, this`eofs, this`name
      ensures Valid() && pos >= old(pos) && (old(linenr == Line()) ==> NearLine() && (ok ==> linenr == Line()))
      ensures var h := BaseVar(old(Rest()), old(name)); ok == h.Some? && (ok ==> h == Some(Header(name, Rest())))
    {
      hide GetNext, ExtendedBaseVar, IsKeyChar, Newlines;
      while true
        invariant Valid() && pos >= old(pos) && (old(linenr == Line()) ==> linenr == Line())
        invariant BaseVar(Rest(), name) == BaseVar(old(Rest()), old(name))
        decreases |text| - pos
      {
        InText();
        var c := GetNextChar();
        if eof {
          return false;
        }
        if c == ']' {
          return true;
        }
        if IsSpace(c) {
          ok := GetExtendedBaseVar(c);
          return;
        }
        if !IsKeyChar(c) && c != '.' {
          return false;
        }
        name := name + [Lower(c)];
        InText();
      }
    }

    /**
     * git_parse_source: the callbacks are those of the text, up to the first that is refused. Each sees
     * the number of its line, and so does the message about an error.
     */
    method GitParseSource() returns (ok: bool)
      requires Fresh()
      modifies this
      ensures Parse(events, ok) == Cut([], ParseSource(text, "", false, 0), accepts)
      ensures Valid() && LinesSeen() && (!ok ==> NearLine())
    {
      hide ParseSource, GetNext, BaseVar, ConfigSyntax.GetValue, IsKeyChar, IsAlpha, IsSpace, Newlines, AllSeen, Cut,
        After;
      hide SourceItem, Lower;
      var comment, bom, base := false, 0, "";
      assert Rest() == text && text[..0] == "" && Newlines("") == 0 by { NoNewline(); }
      NoneSeen(text);
      ghost var whole := Cut([], ParseSource(text, "", false, 0), accepts);
      NothingMade(whole);
      while true
        invariant Valid() && bom <= 3 && linenr == Line() && LinesSeen()
        invariant After(events, Cut(events, ParseSource(Rest(), base, comment, bom), accepts)) == whole
        decreases |text| - pos
      {
        ghost var s, was := Rest(), events;
        SourceBegins(s, base, comment, bom);
        NothingMore(events, true, accepts);
        NothingMore(events, false, accepts);
        InText();
        var c := GetNextChar();
        InText();
        if bom < 3 && c == BOM[bom] && !eof {
          bom := bom + 1;
          continue;
        }
        if 0 < bom < 3 {
          break;
        }
        bom := 3;
        SourceLine(s, base, comment);
        if c == '\n' {
          if eof {
            return true;
          }
          comment := false;
        } else if comment || IsSpace(c) {
          continue;
        } else if c == '#' || c == ';' {
          comment := true;
        } else if c == '[' {
          SourceSection(GetNext(s), base);
          name := "";
          ok := GetBaseVar();
          InText();
          if !ok || name == "" {
            break;
          }
          name := name + ".";
          base := name;
        } else {
          SourceVariable(GetNext(s), base);
          if !IsAlpha(c) {
            break;
          }
          name := base + [Lower(c)];
          ok := GetValue();
          InText();
          if |events| > |was| {
            AfterMore(was, events[|was|], ParseSource(Rest(), base, comment, bom), accepts);
          }
          if !ok {
            break;
          }
        }
      }
      return false;
    }

    lemma InText()
      requires Valid()
      ensures pos <= |text|
    {
    }
  }

  /** One step of parse_value, on the text. */
  lemma ValueStep(s: string, acc: string, quote: bool, comment: bool, space: nat)
    ensures var n := GetNext(s); var r := ConfigSyntax.ParseValue(s, acc, quote, comment, space);
      var filled := acc + Blanks(space); var e := GetNext(n.rest);
      if n.c == '\n' then r == (if quote then None else Some(Value(acc, n.rest)))
      else if comment then !n.eof && r == ConfigSyntax.ParseValue(n.rest, acc, quote, true, space)
      else if IsSpace(n.c) && !quote then
        !n.eof && r == ConfigSyntax.ParseValue(n.rest, acc, quote, false, if acc != "" then space + 1 else space)
      else if !quote && (n.c == ';' || n.c == '#') then
        !n.eof && r == ConfigSyntax.ParseValue(n.rest, acc, quote, true, space)
      else if n.c == '\\' then
        && !n.eof
        && if e.c == '\n' then r == ConfigSyntax.ParseValue(e.rest, filled, quote, false, 0)
           else if Escape(e.c).None? then r == None
           else r == ConfigSyntax.ParseValue(e.rest, filled + [Escape(e.c).value], quote, false, 0)
      else if n.c == '"' then !n.eof && r == ConfigSyntax.ParseValue(n.rest, filled, !quote, false, 0)
      else !n.eof && r == ConfigSyntax.ParseValue(n.rest, filled + [n.c], quote, false, 0)
  {
  }

  lemma NameStep(s: string, name: string)
    ensures ConfigSyntax.GetValue(s, name) ==
            var n := GetNext(s);
            if !n.eof && IsKeyChar(n.c) then ConfigSyntax.GetValue(n.rest, name + [Lower(n.c)]) else AfterName(n, name)
  {
  }

  lemma BlankStep(n: Next, name: string)
    requires n.eof ==> n.c == '\n'
    ensures AfterName(n, name) ==
      if n.c == ' ' || n.c == '\t' then AfterName(GetNext(n.rest), name)
      else if n.c == '\n' then Some(Line(Event(name, None), n.rest))
      else if n.c != '=' then None
      else
        var v := ConfigSyntax.ParseValue(n.rest, "", false, false, 0);
        if v.None? then None else Some(Line(Event(name, Some(v.value.text)), v.value.rest))
  {}

  /** Callbacks made before those of a parse. */
  ghost function After(events: seq<Event>, p: Parse): Parse {
    Parse(events + p.events, p.ok)
  }

  /** A parse that ends with the first callback that is refused. */
  ghost function Cut(made: seq<Event>, p: Parse, accepts: seq<Event> -> bool): Parse
    decreases |p.events|
  {
    if p.events == [] then p
    else
      var now := made + [p.events[0]];
      if accepts(now) then With(p.events[0], Cut(now, Parse(p.events[1..], p.ok), accepts))
      else Parse([p.events[0]], false)
  }

  /** Only the last callback may have been refused, and if none was, all were made. */
  lemma {:induction false} CutAtRefusal(made: seq<Event>, p: Parse, accepts: seq<Event> -> bool)
    ensures var n, r := |Cut(made, p, accepts).events|, Cut(made, p, accepts);
      && n <= |p.events| && r.events == p.events[..n]
      && (forall k :: 0 < k < n ==> accepts(made + p.events[..k]))
      && (r.ok ==> p.ok && n == |p.events| && (n > 0 ==> accepts(made + p.events[..n])))
      && (!r.ok ==> (!p.ok && n == |p.events|) || (n > 0 && !accepts(made + p.events[..n])))
    decreases |p.events|
  {
    if p.events != [] {
      var e, rest := p.events[0], p.events[1..];
      assert p.events[..1] == [e];
      if accepts(made + [e]) {
        CutAtRefusal(made + [e], Parse(rest, p.ok), accepts);
        forall k | 0 < k <= |p.events| ensures made + p.events[..k] == made + [e] + rest[..k - 1] {}
      }
    }
  }

  lemma {:induction false} NeverCut(made: seq<Event>, p: Parse, accepts: seq<Event> -> bool)
    requires forall es :: accepts(es)
    ensures Cut(made, p, accepts) == p
    decreases |p.events|
  {
    if p.events != [] {
      NeverCut(made + [p.events[0]], Parse(p.events[1..], p.ok), accepts);
    }
  }

  lemma AfterMore(events: seq<Event>, e: Event, p: Parse, accepts: seq<Event> -> bool)
    ensures After(events, Cut(events, With(e, p), accepts)) ==
      if accepts(events + [e]) then After(events + [e], Cut(events + [e], p, accepts)) else Parse(events + [e], false)
  {
    assert ([e] + p.events)[1..] == p.events;
    Assoc(events, [e], Cut(events + [e], p, accepts).events);
  }

  lemma NothingMade(p: Parse)
    ensures After([], p) == p
  {}

  lemma NothingMore(events: seq<Event>, ok: bool, accepts: seq<Event> -> bool)
    ensures After(events, Cut(events, Parse([], ok), accepts)) == Parse(events, ok)
  {}

  /** The byte order mark, or what stands in its place. */
  lemma SourceBegins(s: string, base: string, comment: bool, bom: nat)
    requires bom <= 3
    ensures var n := GetNext(s); var r := ParseSource(s, base, comment, bom);
      if bom < 3 && n.c == BOM[bom] && !n.eof then r == ParseSource(n.rest, base, comment, bom + 1)
      else if 0 < bom < 3 then r == Parse([], false)
      else r == ParseSource(s, base, comment, 3)
  {
    hide GetNext, BaseVar, ConfigSyntax.GetValue, IsAlpha, IsSpace, Lower;
  }

  /** The end of a line, blanks and comments. */
  lemma SourceLine(s: string, base: string, comment: bool)
    ensures var n := GetNext(s); var r := ParseSource(s, base, comment, 3);
      if n.c == '\n' then r == (if n.eof then Parse([], true) else ParseSource(n.rest, base, false, 3))
      else if comment || IsSpace(n.c) then r == ParseSource(n.rest, base, comment, 3)
      else if n.c == '#' || n.c == ';' then r == ParseSource(n.rest, base, true, 3)
      else r == SourceItem(n, base)
  {
    hide GetNext, BaseVar, ConfigSyntax.GetValue, IsAlpha, IsSpace, Lower;
  }

  /** A section or a variable. */
  ghost function SourceItem(n: Next, base: string): Parse {
    if n.c == '[' then
      var h := BaseVar(n.rest, "");
      if h.None? || h.value.name == "" then Parse([], false)
      else ParseSource(h.value.rest, h.value.name + ".", false, 3)
    else if !IsAlpha(n.c) then Parse([], false)
    else
      var l := ConfigSyntax.GetValue(n.rest, base + [Lower(n.c)]);
      if l.None? then Parse([], false) else With(l.value.event, ParseSource(l.value.rest, base, false, 3))
  }

  lemma SourceSection(n: Next, base: string)
    requires n.c == '['
    ensures var h := BaseVar(n.rest, "");
      SourceItem(n, base) == if h.None? || h.value.name == "" then Parse([], false)
        else ParseSource(h.value.rest, h.value.name + ".", false, 3)
  {}

  lemma SourceVariable(n: Next, base: string)
    requires n.c != '['
    ensures !IsAlpha(n.c) ==> SourceItem(n, base) == Parse([], false)
    ensures IsAlpha(n.c) ==> var l := ConfigSyntax.GetValue(n.rest, base + [Lower(n.c)]);
      SourceItem(n, base) ==
      if l.None? then Parse([], false) else With(l.value.event, ParseSource(l.value.rest, base, false, 3))
  {}

  // ---- Writing ------------------------------------------------------------------------------

  /** store_write_section: the header for the part of `key` before its last dot. */
  method StoreWriteSection(key: string, baselen: nat) returns (sb: string)
    requires baselen <= |key|
    ensures sb == SectionText(key[..baselen])
  {
    hide EscapeSub, SectionText, FirstDot;
    ghost var base := key[..baselen];
    var dot := 0;
    while dot < baselen && key[dot] != '.'
      invariant 0 <= dot <= baselen && forall i :: 0 <= i < dot ==> base[i] != '.'
    {
      dot := dot + 1;
    }
    SectionIs(base, dot);
    if dot == baselen {
      sb := "[" + (key[..baselen] + "]\n");
      return;
    }
    var sub := "";
    var i := dot + 1;
    EscapeSubStep(base, i);
    while i < baselen
      invariant dot < i <= baselen && sub + EscapeSub(base[i..]) == EscapeSub(base[dot + 1..])
    {
      EscapeSubNext(base, i, sub);
      if key[i] == '"' || key[i] == '\\' {
        sub := sub + "\\";
      }
      sub := sub + [key[i]];
      i := i + 1;
    }
    EscapeSubEnd(base, sub);
    assert base[..dot] == key[..dot];
    sb := "[" + (key[..dot] + (" \"" + (sub + "\"]\n")));
  }

  /** The header, once the first dot is known. */
  lemma SectionIs(s: string, k: nat)
    requires k <= |s| && (k < |s| ==> s[k] == '.') && forall i :: 0 <= i < k ==> s[i] != '.'
    ensures SectionText(s) ==
      if k == |s| then "[" + (s + "]\n") else "[" + (s[..k] + (" \"" + (EscapeSub(s[k + 1..]) + "\"]\n")))
  {
    hide EscapeSub;
    assert FirstDot(s) == k;
  }

  /** One more character, behind what is written already. */
  lemma EscapeSubNext(s: string, i: nat, sub: string)
    requires i < |s|
    ensures sub + EscapeSub(s[i..]) ==
      (if s[i] == '"' || s[i] == '\\' then sub + "\\" else sub) + [s[i]] + EscapeSub(s[i + 1..])
  {
    EscapeSubStep(s, i);
    hide EscapeSub;
    Assoc(sub, if s[i] == '"' || s[i] == '\\' then ['\\', s[i]] else [s[i]], EscapeSub(s[i + 1..]));
    assert sub + ['\\', s[i]] == sub + "\\" + [s[i]];
  }

  lemma EscapeSubStep(s: string, i: nat)
    requires i <= |s|
    ensures i < |s| ==>
      EscapeSub(s[i..]) == (if s[i] == '"' || s[i] == '\\' then ['\\', s[i]] else [s[i]]) + EscapeSub(s[i + 1..])
    ensures "" + EscapeSub(s[i..]) == EscapeSub(s[i..])
  {
    if i < |s| {
      assert s[i..][1..] == s[i + 1..];
    }
  }

  lemma EscapeSubEnd(s: string, sub: string)
    ensures sub + EscapeSub(s[|s|..]) == sub
  {
  }

  /** store_write_pair: the line for the variable after the last dot of `key`. */
  method StoreWritePair(key: string, baselen: nat, value: string) returns (sb: string)
    requires baselen < |key|
    ensures sb == PairText(key[baselen + 1..], value)
  {
    hide EscapeValue, EscapeOne;
    var quote := "";
    if value != "" && value[0] == ' ' {
      quote := "\"";
    }
    var i := 0;
    while i < |value|
      invariant 0 <= i <= |value| && (quote == "" || quote == "\"")
      invariant quote == "\"" <==>
        (value != "" && value[0] == ' ') || exists j :: 0 <= j < i && (value[j] == ';' || value[j] == '#')
    {
      if value[i] == ';' || value[i] == '#' {
        quote := "\"";
      }
      i := i + 1;
    }
    if i > 0 && value[i - 1] == ' ' {
      quote := "\"";
    }
    assert quote == if NeedsQuotes(value) then "\"" else "";
    var text := "";
    i := 0;
    EscapeValueStep(value, 0);
    assert value[0..] == value;
    while i < |value|
      invariant 0 <= i <= |value| && text + EscapeValue(value[i..]) == EscapeValue(value)
    {
      EscapeValueStep(value, i);
      Assoc(text, EscapeOne(value[i]), EscapeValue(value[i + 1..]));
      match value[i] {
        case '\n' => text := text + "\\n";
        case '\t' => text := text + "\\t";
        case _ =>
          ghost var was := text;
          if value[i] == '"' || value[i] == '\\' {
            text := text + "\\";
          }
          text := text + [value[i]];
          assert text == was + EscapeOne(value[i]) by { OneEscaped(value[i]); }
      }
      OneEscaped(value[i]);
      i := i + 1;
    }
    EscapeValueEnd(value, text);
    sb := "\t" + (key[baselen + 1..] + (" = " + (quote + (text + (quote + "\n")))));
  }

  lemma OneEscaped(c: char)
    ensures EscapeOne(c) ==
      if c == '\n' then "\\n" else if c == '\t' then "\\t" else (if c == '"' || c == '\\' then "\\" else "") + [c]
  {
  }

  lemma EscapeValueStep(s: string, i: nat)
    requires i <= |s|
    ensures i < |s| ==> EscapeValue(s[i..]) == EscapeOne(s[i]) + EscapeValue(s[i + 1..])
    ensures "" + EscapeValue(s[i..]) == EscapeValue(s[i..])
  {
    if i < |s| {
      assert s[i..][1..] == s[i + 1..];
    }
  }

  lemma EscapeValueEnd(s: string, text: string)
    ensures text + EscapeValue(s[|s|..]) == text
  {
  }

  // ---- Keys ---------------------------------------------------------------------------------

  datatype KeyResult = NoSectionOrName | InvalidKey | Key(store: string, baselen: nat)

  /** The place of the last dot, or a negative number. */
  function LastDot(s: string): (k: int)
    ensures -1 <= k < |s| && (k >= 0 ==> s[k] == '.') && forall i :: k < i < |s| ==> s[i] != '.'
  {
    if s == "" then -1 else if s[|s| - 1] == '.' then |s| - 1 else LastDot(s[..|s| - 1])
  }

  /**
   * git_config_parse_key: a key with a section and a name is accepted exactly if its parts are well
   * formed, and its section and name are put in lower case.
   */
  method GitConfigParseKey(key: string) returns (r: KeyResult)
    ensures var dot := LastDot(key);
      if dot <= 0 || dot == |key| - 1 then r == NoSectionOrName
      else if KeyAccepted(key[..dot], key[dot + 1..]) then
        r == Key(NormalBase(key[..dot]) + "." + LowerAll(key[dot + 1..]), dot)
      else r == InvalidKey
  {
    var last := LastDot(key);
    if last <= 0 || last == |key| - 1 {
      return NoSectionOrName;
    }
    var baselen: nat := last;
    ghost var base, name := key[..last], key[last + 1..];
    var dot := false;
    var store := "";
    var i := 0;
    while i < |key|
      invariant 0 <= i <= |key| && |store| == i
      invariant dot <==> exists j :: 0 <= j < i && key[j] == '.'
      invariant forall j :: 0 <= j < i ==> store[j] == Stored(key, baselen, j)
      invariant forall j :: 0 <= j < i ==> CharAccepted(key, baselen, j)
    {
      var c := key[i];
      if c == '.' {
        dot := true;
      }
      DotBefore(key, baselen, i, dot);
      if !dot || i > baselen {
        if !IsKeyChar(c) || (i == baselen + 1 && !IsAlpha(c)) {
          NotAccepted(key, baselen, i);
          return InvalidKey;
        }
        c := Lower(c);
      } else if c == '\n' {
        NotAccepted(key, baselen, i);
        return InvalidKey;
      }
      store := store + [c];
      i := i + 1;
    }
    Accepted(key, baselen, store);
    r := Key(store, baselen);
  }

  /** What the key looks like at place `j` once it is normalised. */
  ghost function Stored(key: string, baselen: nat, j: nat): char
    requires baselen < |key| && j < |key|
  {
    if j < FirstDot(key[..baselen]) || j > baselen then Lower(key[j]) else key[j]
  }

  ghost predicate CharAccepted(key: string, baselen: nat, j: nat)
    requires baselen < |key| && j < |key|
  {
    if j < FirstDot(key[..baselen]) || j > baselen then IsKeyChar(key[j]) && (j == baselen + 1 ==> IsAlpha(key[j]))
    else key[j] != '\n'
  }

  lemma DotBefore(key: string, baselen: nat, i: nat, dot: bool)
    requires baselen < |key| && key[baselen] == '.' && i < |key|
    requires dot <==> exists j :: 0 <= j <= i && key[j] == '.'
    ensures !dot <==> i < FirstDot(key[..baselen])
  {
    var base := key[..baselen];
    if dot {
      var j :| 0 <= j <= i && key[j] == '.';
      assert j < baselen ==> base[j] == '.';
    } else {
      assert i < baselen;
      assert forall j :: 0 <= j <= i ==> base[j] == key[j];
    }
  }

  lemma NotAccepted(key: string, baselen: nat, i: nat)
    requires 0 < baselen < |key| - 1 && i < |key| && key[baselen] == '.' && !CharAccepted(key, baselen, i)
    ensures !KeyAccepted(key[..baselen], key[baselen + 1..])
  {
    var base, name := key[..baselen], key[baselen + 1..];
    if i < baselen {
      assert base[i] == key[i];
    } else if i > baselen {
      assert name[i - baselen - 1] == key[i];
    }
  }

  lemma Accepted(key: string, baselen: nat, store: string)
    requires 0 < baselen < |key| - 1 && |store| == |key| && key[baselen] == '.'
    requires forall j :: baselen < j < |key| ==> key[j] != '.'
    requires forall j :: 0 <= j < |key| ==> store[j] == Stored(key, baselen, j) && CharAccepted(key, baselen, j)
    ensures KeyAccepted(key[..baselen], key[baselen + 1..])
    ensures store == NormalBase(key[..baselen]) + "." + LowerAll(key[baselen + 1..])
  {
    var base, name := key[..baselen], key[baselen + 1..];
    assert CharAccepted(key, baselen, baselen + 1);
    forall i | 0 <= i < |name| ensures IsKeyChar(name[i]) && name[i] != '.' {
      assert name[i] == key[baselen + 1 + i] && CharAccepted(key, baselen, baselen + 1 + i);
    }
    forall i | 0 <= i < |base| ensures if i < FirstDot(base) then IsKeyChar(base[i]) else base[i] != '\n' {
      assert CharAccepted(key, baselen, i);
    }
    var r := NormalBase(base) + "." + LowerAll(name);
    forall j | 0 <= j < |store| ensures store[j] == r[j] {
      if j < baselen {
        assert r[j] == NormalBase(base)[j];
      } else if j > baselen {
        assert r[j] == LowerAll(name)[j - baselen - 1];
      }
    }
  }

  /** A key the reader has reported under a section is accepted, and is already what it is normalised to. */
  lemma KeyReadParsed(key: string)
    requires GoodKey(key) && '.' in key
    ensures var dot := LastDot(key);
      && 0 < dot < |key| - 1 && KeyAccepted(key[..dot], key[dot + 1..])
      && NormalBase(key[..dot]) + "." + LowerAll(key[dot + 1..]) == key
  {
    hide *;
    var x, name := PartsOf(key);
    NameHasNoDot(x, name);
    DotBetween(x, name);
  }

  lemma PartsOf(key: string) returns (x: string, name: string)
    requires GoodKey(key) && '.' in key
    ensures key == x + "." + name && KeyAccepted(x, name) && NormalBase(x) == x && LowerAll(name) == name
  {
    hide KeyAccepted, NormalBase, Lower, IsKeyChar;
    assert !GoodName(key);
    x, name :| KeyParts(x, name, key) && KeyAccepted(x, name) && NormalBase(x) == x && LowerAll(name) == name;
  }

  lemma DotBetween(x: string, name: string)
    requires forall i :: 0 <= i < |name| ==> name[i] != '.'
    ensures var key := x + "." + name; LastDot(key) == |x| && key[..|x|] == x && key[|x| + 1..] == name
  {
    var key := x + "." + name;
    hide LastDot;
    assert key[|x|] == '.';
    assert forall i :: |x| < i < |key| ==> key[i] == name[i - |x| - 1];
    var k := LastDot(key);
  }

  lemma NameHasNoDot(x: string, name: string)
    requires KeyAccepted(x, name)
    ensures x != "" && name != "" && forall i :: 0 <= i < |name| ==> name[i] != '.'
  {}

  /**
   * Writing a pair for an accepted key and reading it makes one callback, with the key and value as
   * given, exactly if the value survives.
   */
  method WriteAndRead(key: string, value: string) returns (events: seq<Event>, ok: bool)
    requires var dot := LastDot(key); 0 < dot < |key| - 1 && KeyAccepted(key[..dot], key[dot + 1..])
    ensures var dot := LastDot(key);
      Parse(events, ok) == Parse([Event(NormalBase(key[..dot]) + "." + LowerAll(key[dot + 1..]), Some(value))], true)
      <==> '\r' !in value || NeedsQuotes(value)
  {
    hide ConfigSource.Valid, ConfigSource.LinesSeen, ConfigSource.NearLine, ParseSource, Cut, SectionText, PairText;
    hide KeyAccepted, NormalBase, LowerAll;
    var r := GitConfigParseKey(key);
    ghost var dot := LastDot(key);
    ghost var base, name := NormalBase(key[..dot]), LowerAll(key[dot + 1..]);
    assert r.store[..r.baselen] == base && r.store[r.baselen + 1..] == name;
    var section := StoreWriteSection(r.store, r.baselen);
    var pair := StoreWritePair(r.store, r.baselen, value);
    var accepts := (_: seq<Event>) => true;
    var source := new ConfigSource(section + pair, accepts);
    NeverCut([], ParseSource(section + pair, "", false, 0), accepts);
    WriteReadRoundTrip(key[..dot], key[dot + 1..], value);
    ok := source.GitParseSource();
    events := source.events;
  }
}
