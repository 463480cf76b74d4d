/** convert.c: stream filters that convert a chunk at a time, and their cascade. */
module StreamFilters {
  import opened Basics
  import opened LineEndings

  /** The value of a filter. An `Other` filter is any that keeps the contract of a stream filter. */
  datatype State =
    | NullState
    | LfState(held: Option<char>)
    | CascadeState(one: State, two: State, buf: string)
    | OtherState(next: (string, string) -> string, inner: string)

  /** All that a filter in this state will put out, if it is fed `s` and then drained. */
  ghost function Total(st: State, s: string): string {
    match st
    case NullState => s
    case LfState(held) => if held.None? then ToCrlf(s, false) else [held.value] + ToCrlf(s, held.value == '\r')
    case CascadeState(one, two, buf) => Total(two, buf + Total(one, s))
    case OtherState(next, inner) => next(inner, s)
  }

  /** Taking in `chunk` and putting out `out` is a step on the way to the same total output, whatever follows. */
  ghost predicate Fed(before: State, after: State, chunk: string, out: string) {
    forall s :: Total(before, chunk + s) == out + Total(after, s)
  }

  /** The same when nothing follows any more. */
  ghost predicate Drained(before: State, after: State, out: string) {
    Total(before, "") == out + Total(after, "")
  }

  // ---- Whole runs ---------------------------------------------------------------------------

  ghost function Joined(parts: seq<string>): string {
    if parts == [] then "" else Joined(parts[..|parts| - 1]) + parts[|parts| - 1]
  }

  /** From its initial state the filter does what the conversion of the whole buffer does. */
  lemma StreamingIsWholeBuffer(s: string)
    ensures Total(LfState(None), s) == ToCrlf(s, false)
    ensures forall one, two :: Total(CascadeState(one, two, ""), s) == Total(two, Total(one, s))
  {
    forall one, two ensures Total(CascadeState(one, two, ""), s) == Total(two, Total(one, s)) {
      Unit(Total(one, s));
    }
  }

  lemma FedNothing(st: State)
    ensures Fed(st, st, "", "")
  {
    forall s ensures Total(st, "" + s) == "" + Total(st, s) {
      Unit(s);
      Unit(Total(st, s));
    }
  }

  lemma FedTwice(a: State, b: State, c: State, x: string, o: string, y: string, p: string)
    requires Fed(a, b, x, o) && Fed(b, c, y, p)
    ensures Fed(a, c, x + y, o + p)
  {
    hide Total;
    forall s ensures Total(a, x + y + s) == o + p + Total(c, s) {
      Assoc(x, y, s);
      Assoc(o, p, Total(c, s));
      assert Total(a, x + (y + s)) == o + Total(b, y + s);
    }
  }

  lemma FedIsDrained(a: State, b: State, o: string)
    requires Fed(a, b, "", o)
    ensures Drained(a, b, o)
  {
    Unit("");
    assert Total(a, "" + "") == o + Total(b, "");
  }

  // ---- The LF-to-CRLF step ------------------------------------------------------------------

  lemma ToCrlfFirst(c: char, s: string, wasCr: bool)
    ensures ToCrlf([c] + s, wasCr) ==
      if c == '\n' && !wasCr then ['\r', '\n'] + ToCrlf(s, false) else [c] + ToCrlf(s, c == '\r')
  {
    assert ([c] + s)[1..] == s;
  }

  /** What one character does: `wasCr` before, and what is put out and held after it. */
  lemma LfStep(wasCr: bool, c: char, out: string, held: Option<char>)
    requires
      || (c == '\n' && out == "\r" && held == Some('\n'))
      || (c == '\n' && out == "\r\n" && held == None)
      || (c != '\n' && out == (if wasCr then "\r" else "") + (if held.None? then [c] else "") &&
           (held == None || held == Some(c))
          && (c == '\r' ==> held.Some?))
    ensures Fed(LfState(if wasCr then Some('\r') else None), LfState(held), [c], out)
  {
    forall s ensures Total(LfState(if wasCr then Some('\r') else None), [c] + s) == out + Total(LfState(held), s) {
      ToCrlfFirst(c, s, wasCr);
    }
  }

  /** A held character other than a carriage return is as good as put out. */
  lemma LfRelease(c: char)
    ensures c != '\r' ==> Fed(LfState(Some(c)), LfState(None), "", [c])
    ensures Drained(LfState(Some(c)), LfState(None), [c])
  {
    forall s ensures "" + s == s {}
    assert [c] + "" == [c];
  }

  // ---- The cascade's steps ------------------------------------------------------------------

  lemma FeedTwoStep(one: State, two: State, after: State, x: string, y: string, o: string)
    requires Fed(two, after, x, o)
    ensures Fed(CascadeState(one, two, x + y), CascadeState(one, after, y), "", o)
  {
    forall s ensures Total(CascadeState(one, two, x + y), "" + s) == o + Total(CascadeState(one, after, y), s) {
      Unit(s);
      Assoc(x, y, Total(one, s));
      assert Total(two, x + (y + Total(one, s))) == o + Total(after, y + Total(one, s));
    }
  }

  lemma FeedOneStep(one: State, two: State, after: State, x: string, o: string)
    requires Fed(one, after, x, o)
    ensures Fed(CascadeState(one, two, ""), CascadeState(after, two, o), x, "")
  {
    forall s ensures Total(CascadeState(one, two, ""), x + s) == "" + Total(CascadeState(after, two, o), s) {
      Unit(Total(one, x + s));
      Unit(Total(two, o + Total(after, s)));
    }
  }

  lemma DrainOneStep(one: State, two: State, after: State, o: string)
    requires Drained(one, after, o)
    ensures Drained(CascadeState(one, two, ""), CascadeState(after, two, o), "")
  {
    Unit(Total(one, ""));
    Unit(Total(two, o + Total(after, "")));
  }

  lemma DrainTwoStep(one: State, two: State, after: State, o: string)
    requires Total(one, "") == "" && Drained(two, after, o)
    ensures Drained(CascadeState(one, two, ""), CascadeState(one, after, ""), o)
    ensures Total(after, "") == "" ==> Total(CascadeState(one, after, ""), "") == ""
  {
    Unit("");
  }
}
