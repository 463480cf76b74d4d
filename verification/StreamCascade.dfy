/** convert.c: the filters themselves, which keep state between calls and write into the caller's buffer. */
module StreamCascade {
  import opened Basics
  import opened LineEndings
  import opened StreamFilters

  const FILTER_BUFFER: nat := 1024

  datatype Filter = Null | LfToCrlf(lf: LfToCrlfFilter) | Cascade(cas: CascadeFilter) | Other(other: OtherFilter)

  /** What one call does: the new state, how much of the input it took, and what it put out. */
  datatype Effect = Effect(inner: string, used: nat, out: string)

  /** The objects a filter consists of. */
  ghost function Objects(f: Filter): set<object> {
    match f
    case Null => {}
    case LfToCrlf(l) => {l}
    case Cascade(c) => {c} + c.Repr
    case Other(o) => {o}
  }

  ghost predicate FilterValid(f: Filter)
    reads Objects(f)
    decreases Objects(f), 1
  {
    match f
    case Null => true
    case LfToCrlf(l) => true
    case Cascade(c) => c.Valid()
    case Other(o) => o.ChunkIndependent()
  }

  ghost function FilterValue(f: Filter): State
    requires FilterValid(f)
    reads Objects(f)
    decreases Objects(f), 1
  {
    match f
    case Null => NullState
    case LfToCrlf(l) => LfState(if l.hasHeld then Some(l.held) else None)
    case Cascade(c) => c.Value()
    case Other(o) => OtherState(o.next, o.inner)
  }

  /** The contract of a stream filter: `input` fed or, without input, draining. */
  ghost predicate Filtered(before: State, after: State, input: Option<string>, isize: nat, out: string) {
    if input.Some? then
      && isize <= |input.value|
      && Fed(before, after, input.value[..|input.value| - isize], out)
      && (input.value != "" ==> isize < |input.value| || out != "")
    else
      && isize == 0 && Drained(before, after, out) && (out == "" ==> Total(after, "") == "")
  }

  class LfToCrlfFilter {
    var hasHeld: bool
    var held: char

    constructor ()
      ensures !hasHeld
    {
      hasHeld, held := false, '\0';
    }

    ghost function Held(): Option<char>
      reads this
    {
      if hasHeld then Some(held) else None
    }

    /**
     * lf_to_crlf_filter_fn. On an empty chunk it drops a held character other than a carriage return;
     * everywhere else it keeps the contract.
     */
    method Filter(input: Option<string>, output: array<char>, at: nat, osize: nat) returns (isize: nat, left: nat)
      requires at + osize <= output.Length && osize > 0
      modifies this, output
      ensures left <= osize && output[..at] == old(output[..at])
      ensures if LosesHeld(old(Held()), input) then Held() == None && left == osize && isize == 0
              else Filtered(LfState(old(Held())), LfState(Held()), input, isize, output[at..at + (osize - left)])
    {
      hide Fed, Total, ToCrlf, Drained;
      ghost var before := LfState(Held());
      isize := if input.Some? then |input.value| else 0;
      left := osize;
      var o := 0;
      HeldOrNot(Held());
      if hasHeld && (held != '\r' || input.None?) {
        output[at] := held;
        o := 1;
        hasHeld := false;
      }
      assert output[at..at + o] == if o == 1 then [before.held.value] else "";
      assert output[..at] == old(output[..at]);
      if input.None? {
        left := osize - o;
        return;
      }
      if isize > 0 || hasHeld {
        isize, left := Feed(input.value, output, at, o, osize, before);
        assert input == Some(input.value);
      } else if before.held.None? {
        FedNothing(before);
        assert input.value[..|input.value| - isize] == "" && output[at..at + (osize - left)] == "";
      }
    }

    /** The part of the function that reads input. */
    method Feed(input: string, output: array<char>, at: nat, o0: nat, osize: nat, ghost before: State)
      returns (isize: nat, left: nat)
      requires at + osize <= output.Length && o0 <= osize && osize > 0 && (hasHeld ==> held == '\r')
      requires Fed(before, LfState(Held()), "", output[at..at + o0])
      modifies this, output
      ensures left <= osize && output[..at] == old(output[..at])
      ensures Filtered(before, LfState(Held()), Some(input), isize, output[at..at + (osize - left)])
    {
      hide Fed, Total;
      ghost var out, start := output[at..at + o0], output[..at + o0];
      ghost var mid := LfState(Held());
      var i, o := Convert(input, output, at, o0, osize);
      JoinOutput(output, at, o0, o - o0, start);
      FedTwice(before, mid, LfState(Held()), "", out, input[..i], output[at + o0..at + o]);
      Unit(input[..i]);
      left, isize := osize - o, |input| - i;
      assert input[..|input| - isize] == input[..i];
    }

    /** The main loop, from output place `o0` on. */
    method Convert(input: string, output: array<char>, at: nat, o0: nat, osize: nat) returns (i: nat, o: nat)
      requires at + osize <= output.Length && o0 <= osize && (hasHeld ==> held == '\r')
      modifies this, output
      ensures o0 <= o <= osize && i <= |input| && output[..at + o0] == old(output[..at + o0])
      ensures Fed(LfState(old(Held())), LfState(Held()), input[..i], output[at + o0..at + o])
      ensures input != "" && o0 < osize ==> i > 0
    {
      hide Fed, Total, ToCrlf;
      ghost var before := LfState(Held());
      var wasCr := hasHeld;
      hasHeld := false;
      i, o := 0, o0;
      FedNothing(before);
      assert input[..0] == "" && output[at + o0..at + o0] == "";
      assert before == LfState(if wasCr then Some('\r') else None);
      while o < osize && i < |input|
        invariant i <= |input| && o0 <= o <= osize && output[..at + o0] == old(output[..at + o0])
        invariant hasHeld ==> o == osize
        invariant Fed(before, LfState(if hasHeld then Some(held) else if wasCr then Some('\r') else None),
                    input[..i], output[at + o0..at + o])
        invariant input != "" && o0 < osize && o == osize ==> i > 0
      {
        ghost var start, cr := o, wasCr;
        ghost var sofar := output[at + o0..at + o];
        ghost var first := output[..at + o0];
        o, wasCr := ConvertOne(input[i], wasCr, output, at, o, osize);
        ghost var now := LfState(if hasHeld then Some(held) else if wasCr then Some('\r') else None);
        assert output[at + o0..at + o] == sofar + output[at + start..at + o];
        assert output[..at + o0] == first;
        FedTwice(before, LfState(if cr then Some('\r') else None), now, input[..i], sofar, [input[i]],
          output[at + start..at + o]);
        assert input[..i + 1] == input[..i] + [input[i]];
        i := i + 1;
      }
      if !hasHeld && wasCr {
        hasHeld, held := true, '\r';
      }
    }

    /** One round of the loop. */
    method ConvertOne(ch: char, wasCr0: bool, output: array<char>, at: nat, o0: nat, osize: nat)
      returns (o: nat, wasCr: bool)
      requires at + osize <= output.Length && o0 < osize && !hasHeld
      modifies this, output
      ensures o0 <= o <= osize && output[..at + o0] == old(output[..at + o0]) && (hasHeld ==> o == osize)
      ensures Fed(LfState(if wasCr0 then Some('\r') else None),
                  LfState(if hasHeld then Some(held) else if wasCr then Some('\r') else None),
                  [ch], output[at + o0..at + o])
    {
      hide Fed, Total, ToCrlf;
      o, wasCr := o0, wasCr0;
      if ch == '\n' || wasCr {
        output[at + o] := '\r';
        o := o + 1;
      }
      if osize <= o {
        hasHeld, held := true, ch;
        assert output[at + o0..at + o] == "\r";
        LfStep(wasCr0, ch, "\r", Some(ch));
        return;
      }
      if ch == '\r' {
        wasCr := true;
        assert output[at + o0..at + o] == if wasCr0 then "\r" else "";
        LfStep(wasCr0, ch, if wasCr0 then "\r" else "", Some('\r'));
        return;
      }
      wasCr := false;
      output[at + o] := ch;
      o := o + 1;
      ghost var out := (if ch == '\n' || wasCr0 then "\r" else "") + [ch];
      assert output[at + o0..at + o] == out;
      LfStep(wasCr0, ch, out, None);
    }
  }

  /** An empty chunk while a character other than a carriage return is held. */
  ghost predicate LosesHeld(held: Option<char>, input: Option<string>) {
    input == Some("") && held.Some? && held.value != '\r'
  }

  /** Dropping a held character breaks the contract. */
  lemma LossIsLoss(c: char)
    ensures !Fed(LfState(Some(c)), LfState(None), "", "")
  {
    assert "" + "" == "";
    assert Total(LfState(Some(c)), "" + "") != "" + Total(LfState(None), "");
  }

  lemma HeldOrNot(held: Option<char>)
    ensures held.Some? && held.value != '\r' ==> Fed(LfState(held), LfState(None), "", [held.value])
    ensures held.Some? ==> Drained(LfState(held), LfState(None), [held.value])
    ensures Fed(LfState(held), LfState(held), "", "")
    ensures Total(LfState(None), "") == "" && Drained(LfState(None), LfState(None), "")
  {
    if held.Some? {
      LfRelease(held.value);
    }
    FedNothing(LfState(held));
  }

  /** Any other filter: a state, what a call does to it, and what it will put out in all. */
  class OtherFilter {
    const step: (string, Option<string>, nat) -> Effect
    const next: (string, string) -> string
    var inner: string

    constructor (step: (string, Option<string>, nat) -> Effect, next: (string, string) -> string, inner: string)
      ensures this.step == step && this.next == next && this.inner == inner
    {
      this.step, this.next, this.inner := step, next, inner;
    }

    method Filter(input: Option<string>, output: array<char>, at: nat, osize: nat) returns (isize: nat, left: nat)
      requires ChunkIndependent() && at + osize <= output.Length && osize > 0 && input != Some("")
      modifies this, output
      ensures left <= osize && output[..at] == old(output[..at])
      ensures Filtered(OtherState(next, old(inner)), OtherState(next, inner), input, isize,
        output[at..at + (osize - left)])
    {
      hide Filtered;
      var e := step(inner, input, osize);
      CopyOut(e.out, output, at);
      inner := e.inner;
      isize, left := (if input.Some? then |input.value| else 0) - e.used, osize - |e.out|;
    }

    /** It keeps the contract of a stream filter whatever the chunks and the room for output. */
    ghost predicate ChunkIndependent() {
      forall st: string, input: Option<string>, room: nat :: room > 0 && input != Some("") ==>
        var e := step(st, input, room);
        && |e.out| <= room && e.used <= (if input.Some? then |input.value| else 0)
        && Filtered(OtherState(next, st), OtherState(next, e.inner), input,
             (if input.Some? then |input.value| else 0) - e.used, e.out)
    }
  }

  /** stream_filter. */
  method StreamFilter(f: Filter, input: Option<string>, output: array<char>, at: nat, osize: nat)
    returns (isize: nat, left: nat)
    requires FilterValid(f) && output !in Objects(f) && at + osize <= output.Length && osize > 0 && input != Some("")
    modifies Objects(f), output
    ensures FilterValid(f) && left <= osize && output[..at] == old(output[..at])
    ensures Filtered(old(FilterValue(f)), FilterValue(f), input, isize, output[at..at + (osize - left)])
    decreases Objects(f), 5
  {
    hide Filtered, Fed, Drained, Total, LosesHeld;
    match f
    case Null => isize, left := NullFilter(input, output, at, osize);
    case LfToCrlf(l) =>
      NotLost(l.Held(), input);
      isize, left := l.Filter(input, output, at, osize);
    case Cascade(c) => isize, left := c.Filter(input, output, at, osize);
    case Other(o) => isize, left := o.Filter(input, output, at, osize);
  }

  lemma NotLost(held: Option<char>, input: Option<string>)
    ensures input != Some("") ==> !LosesHeld(held, input)
  {
  }

  /** null_filter_fn. */
  method NullFilter(input: Option<string>, output: array<char>, at: nat, osize: nat) returns (isize: nat, left: nat)
    requires at + osize <= output.Length && osize > 0 && input != Some("")
    modifies output
    ensures left <= osize && output[..at] == old(output[..at])
    ensures Filtered(NullState, NullState, input, isize, output[at..at + (osize - left)])
  {
    isize, left := 0, osize;
    if input.None? {
      assert output[at..at + (osize - left)] == "" && "" + "" == "";
      return;
    }
    var count := if osize < |input.value| then osize else |input.value|;
    CopyOut(input.value[..count], output, at);
    isize, left := |input.value| - count, osize - count;
    assert input.value[..|input.value| - isize] == input.value[..count] == output[at..at + (osize - left)];
  }

  /** memmove into the output. */
  method CopyOut(s: string, output: array<char>, at: nat)
    requires at + |s| <= output.Length
    modifies output
    ensures output[..at] == old(output[..at]) && output[at..at + |s|] == s
  {
    var i := 0;
    while i < |s|
      invariant 0 <= i <= |s| && output[..at] == old(output[..at]) && output[at..at + i] == s[..i]
    {
      output[at + i] := s[i];
      assert output[at..at + (i + 1)] == output[at..at + i] + [s[i]];
      i := i + 1;
    }
  }

  class CascadeFilter {
    const one: Filter
    const two: Filter
    const buf: array<char>
    var end: nat
    var ptr: nat
    ghost const Repr: set<object>

    ghost predicate Valid()
      reads this, Repr
      decreases Repr, 0
    {
      && this in Repr && buf in Repr && buf.Length == FILTER_BUFFER && ptr <= end <= FILTER_BUFFER
      && Objects(one) <= Repr - {this, buf} && Objects(two) <= Repr - {this, buf} && Objects(one) !! Objects(two)
      && FilterValid(one) && FilterValid(two)
    }

    ghost function Value(): State
      requires Valid()
      reads this, Repr
      decreases Repr, 0
    {
      CascadeState(FilterValue(one), FilterValue(two), buf[ptr..end])
    }

    /** cascade_filter. */
    constructor (one: Filter, two: Filter)
      requires FilterValid(one) && FilterValid(two) && Objects(one) !! Objects(two)
      ensures Valid() && this.one == one && this.two == two && fresh(Repr - Objects(one) - Objects(two))
      ensures Value() == CascadeState(FilterValue(one), FilterValue(two), "")
    {
      this.one, this.two := one, two;
      var b := new char[FILTER_BUFFER];
      buf := b;
      end, ptr := 0, 0;
      Repr := {this, b} + Objects(one) + Objects(two);
    }

    /** Feed two with what is left in the buffer. */
    method FeedTwo(output: array<char>, at: nat, room: nat) returns (left: nat)
      requires Valid() && output !in Repr && at + room <= output.Length && room > 0 && ptr < end
      modifies Repr, output
      ensures Valid() && left <= room && output[..at] == old(output[..at])
      ensures Fed(old(Value()), Value(), "", output[at..at + (room - left)])
      ensures FilterValue(one) == old(FilterValue(one)) && ptr <= end == old(end) && (left < room || ptr > old(ptr))
      decreases Repr, 1
    {
      hide Filtered, Fed, Total;
      ghost var v1, v2 := FilterValue(one), FilterValue(two);
      var text := buf[ptr..end];
      var toFeed;
      toFeed, left := StreamFilter(two, Some(text), output, at, room);
      assert buf[ptr..end] == text;
      FilteredFed(v2, FilterValue(two), text, toFeed, output[at..at + (room - left)]);
      var took := |text| - toFeed;
      FeedTwoStep(v1, v2, FilterValue(two), text[..took], text[took..], output[at..at + (room - left)]);
      assert text == text[..took] + text[took..];
      ptr := ptr + took;
      assert buf[ptr..end] == text[took..];
    }

    /** Feed one from upstream, into the empty buffer. */
    method FeedOne(chunk: string) returns (toFeed: nat)
      requires Valid() && ptr == end && chunk != ""
      modifies Repr
      ensures Valid() && ptr == 0 && toFeed <= |chunk|
      ensures Fed(old(Value()), Value(), chunk[..|chunk| - toFeed], "")
      ensures toFeed < |chunk| || |Total(FilterValue(one), "")| < old(|Total(FilterValue(one), "")|)
      decreases Repr, 1
    {
      hide Filtered, Fed, Total, Drained;
      ghost var v1, v2 := FilterValue(one), FilterValue(two);
      assert buf[ptr..end] == "";
      var remaining;
      toFeed, remaining := StreamFilter(one, Some(chunk), buf, 0, FILTER_BUFFER);
      end, ptr := FILTER_BUFFER - remaining, 0;
      FilteredFed(v1, FilterValue(one), chunk, toFeed, buf[0..end]);
      FeedOneStep(v1, v2, FilterValue(one), chunk[..|chunk| - toFeed], buf[0..end]);
      if toFeed == |chunk| {
        assert chunk[..0] == "";
        FedIsDrained(v1, FilterValue(one), buf[0..end]);
        OwesLess(v1, FilterValue(one), buf[0..end]);
      }
    }

    /** Drain one, into the empty buffer. */
    method DrainOne()
      requires Valid() && ptr == end
      modifies Repr
      ensures Valid() && ptr == 0 && Drained(old(Value()), Value(), "")
      ensures if end == 0 then
                Total(FilterValue(one), "") == "" && |Total(FilterValue(one), "")| <= old(|Total(FilterValue(one), "")|)
              else |Total(FilterValue(one), "")| < old(|Total(FilterValue(one), "")|)
      decreases Repr, 1
    {
      ghost var v1, v2 := FilterValue(one), FilterValue(two);
      assert buf[ptr..end] == "";
      var toFeed, remaining := StreamFilter(one, None, buf, 0, FILTER_BUFFER);
      end, ptr := FILTER_BUFFER - remaining, 0;
      DrainOneStep(v1, v2, FilterValue(one), buf[0..end]);
    }

    /** Drain two, when one has nothing more to give. */
    method DrainTwo(output: array<char>, at: nat, room: nat) returns (left: nat)
      requires Valid() && ptr == end && Total(FilterValue(one), "") == ""
      requires output !in Repr && at + room <= output.Length && room > 0
      modifies Repr, output
      ensures Valid() && ptr == end && left <= room && output[..at] == old(output[..at])
      ensures FilterValue(one) == old(FilterValue(one))
      ensures Drained(old(Value()), Value(), output[at..at + (room - left)])
      ensures left == room ==> Total(Value(), "") == ""
      decreases Repr, 1
    {
      ghost var v1, v2 := FilterValue(one), FilterValue(two);
      assert buf[ptr..end] == "";
      var toFeed;
      toFeed, left := StreamFilter(two, None, output, at, room);
      assert buf[ptr..end] == "";
      DrainTwoStep(v1, v2, FilterValue(two), output[at..at + (room - left)]);
    }

    /** A round of the loop with something left in the buffer. */
    method OutputRound(output: array<char>, at: nat, filled0: nat, osize: nat, ghost before: State,
        ghost input: Option<string>, ghost used: nat)
      returns (filled: nat)
      requires Valid() && output !in Repr && at + osize <= output.Length && filled0 < osize && ptr < end
      requires Sofar(before, Value(), input, used, output[at..at + filled0])
      modifies Repr, output
      ensures Valid() && filled0 <= filled <= osize && output[..at] == old(output[..at])
      ensures Sofar(before, Value(), input, used, output[at..at + filled])
      ensures FilterValue(one) == old(FilterValue(one)) && end == old(end) && (filled > filled0 || ptr > old(ptr))
      decreases Repr, 2
    {
      hide Fed, Sofar;
      ghost var mid, out, start := Value(), output[at..at + filled0], output[..at + filled0];
      var remaining := FeedTwo(output, at + filled0, osize - filled0);
      var more := osize - filled0 - remaining;
      filled := filled0 + more;
      JoinOutput(output, at, filled0, more, start);
      SofarOutput(before, mid, Value(), input, used, out, output[at + filled0..at + filled]);
    }

    /** A round of the loop when one is to be drained. */
    method DrainRound(output: array<char>, at: nat, filled0: nat, osize: nat, ghost before: State,
        ghost input: Option<string>)
      returns (filled: nat, done: bool)
      requires Valid() && output !in Repr && at + osize <= output.Length && filled0 < osize && ptr == end && input.None?
      requires Sofar(before, Value(), input, 0, output[at..at + filled0])
      modifies Repr, output
      ensures Valid() && filled0 <= filled <= osize && output[..at] == old(output[..at])
      ensures Sofar(before, Value(), input, 0, output[at..at + filled])
      ensures done ==> filled == filled0 && Total(Value(), "") == ""
      ensures |Total(FilterValue(one), "")| <= old(|Total(FilterValue(one), "")|)
      ensures done || filled > filled0 || |Total(FilterValue(one), "")| < old(|Total(FilterValue(one), "")|)
      decreases Repr, 2
    {
      hide Drained, Sofar, Total;
      ghost var mid, out := Value(), output[at..at + filled0];
      filled, done := filled0, false;
      DrainOne();
      SofarDrained(before, mid, Value(), input, out, "");
      Unit(out);
      if end == 0 {
        ghost var mid', start := Value(), output[..at + filled0];
        var remaining := DrainTwo(output, at + filled0, osize - filled0);
        var more := osize - filled0 - remaining;
        filled, done := filled0 + more, more == 0;
        JoinOutput(output, at, filled0, more, start);
        SofarDrained(before, mid', Value(), input, out, output[at + filled0..at + filled]);
      }
    }

    lemma Bounds()
      requires Valid()
      ensures ptr <= end && this in Repr && FilterValid(one)
    {
    }

    /** A round of the loop with something to feed to one. */
    method InputRound(output: array<char>, at: nat, filled: nat, input: string, used0: nat, ghost before: State)
      returns (used: nat)
      requires Valid() && output !in Repr && at + filled <= output.Length && used0 < |input| && ptr == end
      requires Sofar(before, Value(), Some(input), used0, output[at..at + filled])
      modifies Repr
      ensures Valid() && used0 <= used <= |input|
      ensures Sofar(before, Value(), Some(input), used, output[at..at + filled])
      ensures used > used0 || |Total(FilterValue(one), "")| < old(|Total(FilterValue(one), "")|)
      decreases Repr, 2
    {
      hide Sofar, Fed, Total;
      ghost var mid, out := Value(), output[at..at + filled];
      var chunk := input[used0..];
      var toFeed := FeedOne(chunk);
      used := |input| - toFeed;
      SofarInput(before, mid, Value(), Some(input), used0, out, chunk, |chunk| - toFeed);
    }

    /** One round of the loop of cascade_filter_fn; each brings it nearer to its end. */
    method Round(input: Option<string>, output: array<char>, at: nat, osize: nat, size: nat, filled0: nat, used0: nat,
        ghost before: State)
      returns (filled: nat, used: nat, done: bool)
      requires Valid() && output !in Repr && at + osize <= output.Length && filled0 < osize
      requires used0 <= size == if input.Some? then |input.value| else 0
      requires Sofar(before, Value(), input, used0, output[at..at + filled0])
      modifies Repr, output
      ensures Valid() && filled0 <= filled <= osize && used0 <= used <= size && output[..at] == old(output[..at])
      ensures Sofar(before, Value(), input, used, output[at..at + filled])
      ensures done ==> filled == filled0 && if input.Some? then used == size else Total(Value(), "") == ""
      ensures used == used0 ==> |Total(FilterValue(one), "")| <= old(|Total(FilterValue(one), "")|)
      ensures done || used > used0 || |Total(FilterValue(one), "")| < old(|Total(FilterValue(one), "")|)
        || filled > filled0 || (end == old(end) && ptr > old(ptr))
      decreases Repr, 3
    {
      hide *;
      Bounds();
      filled, used, done := filled0, used0, false;
      if ptr < end {
        filled := OutputRound(output, at, filled0, osize, before, input, used0);
      } else if input.None? {
        NoInput(before, Value(), input, used0, output[at..at + filled0]);
        filled, done := DrainRound(output, at, filled0, osize, before, input);
      } else if used0 == size {
        done := true;
      } else {
        used := InputRound(output, at, filled0, input.value, used0, before);
        assert input == Some(input.value);
      }
    }

    /** cascade_filter_fn: input, through one, into the buffer, through two, to the output. */
    method Filter(input: Option<string>, output: array<char>, at: nat, osize: nat) returns (isize: nat, left: nat)
      requires Valid() && output !in Repr && at + osize <= output.Length && osize > 0 && input != Some("")
      modifies Repr, output
      ensures Valid() && left <= osize && output[..at] == old(output[..at])
      ensures Filtered(old(Value()), Value(), input, isize, output[at..at + (osize - left)])
      decreases Repr, 4
    {
      hide *;
      ghost var before := Value();
      var size: nat := if input.Some? then |input.value| else 0;
      var filled: nat, used: nat, done := 0, 0, false;
      SofarStarts(before, input);
      Bounds();
      assert output[at..at + filled] == "";
      while filled < osize && !done
        invariant Valid() && FilterValid(one) && ptr <= end && filled <= osize && used <= size &&
          output[..at] == old(output[..at])
        invariant Sofar(before, Value(), input, used, output[at..at + filled])
        invariant done && filled == 0 ==> if input.Some? then used == size else Total(Value(), "") == ""
        decreases !done, size - used, |Total(FilterValue(one), "")|, osize - filled, end - ptr
      {
        filled, used, done := Round(input, output, at, osize, size, filled, used, before);
        Bounds();
      }
      isize, left := size - used, osize - filled;
      SofarEnds(before, Value(), input, used, output[at..at + filled]);
    }
  }

  // ---- Whole runs ---------------------------------------------------------------------------

  /** Feed one chunk, in calls with room for `rooms(k)`, `rooms(k + 1)` ... characters, until all of it is taken. */
  method FeedChunk(f: Filter, chunk: string, output: array<char>, rooms: nat -> nat, k0: nat)
    returns (out: string, k: nat)
    requires FilterValid(f) && output !in Objects(f) && forall i :: 0 < rooms(i) <= output.Length
    modifies Objects(f), output
    ensures FilterValid(f) && Fed(old(FilterValue(f)), FilterValue(f), chunk, out)
  {
    hide *;
    ghost var before := FilterValue(f);
    out, k := "", k0;
    var left: nat := |chunk|;
    assert chunk[..0] == "";
    FedNothing(before);
    while left > 0
      invariant left <= |chunk| && FilterValid(f) && Fed(before, FilterValue(f), chunk[..|chunk| - left], out)
      decreases left, |Total(FilterValue(f), "")|
    {
      ghost var mid := FilterValue(f);
      var rest := chunk[|chunk| - left..];
      var isize, free := StreamFilter(f, Some(rest), output, 0, rooms(k));
      var portion := output[0..rooms(k) - free];
      FilteredFed(mid, FilterValue(f), rest, isize, portion);
      FedTwice(before, mid, FilterValue(f), chunk[..|chunk| - left], out, rest[..left - isize], portion);
      assert chunk[..|chunk| - left] + rest[..left - isize] == chunk[..|chunk| - isize];
      if isize == left {
        assert rest[..0] == "";
        FedIsDrained(mid, FilterValue(f), portion);
        OwesLess(mid, FilterValue(f), portion);
      }
      out, left, k := out + portion, isize, k + 1;
    }
    assert chunk[..|chunk|] == chunk;
  }

  /** Drain the filter until it puts out nothing more. */
  method DrainAll(f: Filter, output: array<char>, rooms: nat -> nat, k0: nat)
    returns (out: string)
    requires FilterValid(f) && output !in Objects(f) && forall i :: 0 < rooms(i) <= output.Length
    modifies Objects(f), output
    ensures FilterValid(f) && out == old(Total(FilterValue(f), ""))
  {
    hide *;
    ghost var before := FilterValue(f);
    out := "";
    var k, more := k0, true;
    Unit(Total(before, ""));
    while more
      invariant FilterValid(f) && out + Total(FilterValue(f), "") == Total(before, "")
      invariant !more ==> Total(FilterValue(f), "") == ""
      decreases more, |Total(FilterValue(f), "")|
    {
      ghost var mid := FilterValue(f);
      var isize, free := StreamFilter(f, None, output, 0, rooms(k));
      var portion := output[0..rooms(k) - free];
      FilteredDrained(mid, FilterValue(f), isize, portion);
      Assoc(out, portion, Total(FilterValue(f), ""));
      if portion != "" {
        OwesLess(mid, FilterValue(f), portion);
      }
      out, more, k := out + portion, portion != "", k + 1;
    }
    Unit(out);
  }

  lemma FilteredDrained(before: State, after: State, isize: nat, out: string)
    requires Filtered(before, after, None, isize, out)
    ensures Drained(before, after, out) && Total(before, "") == out + Total(after, "")
    ensures out == "" ==> Total(after, "") == ""
  {
    hide Total;
  }

  /**
   * However the input is cut into chunks, and whatever the room in each call: feeding all chunks and
   * then draining ends, and puts out what the filter makes of the whole input.
   */
  method Run(f: Filter, chunks: seq<string>, output: array<char>, rooms: nat -> nat) returns (out: string)
    requires FilterValid(f) && output !in Objects(f) && forall i :: 0 < rooms(i) <= output.Length
    modifies Objects(f), output
    ensures FilterValid(f) && out == Total(old(FilterValue(f)), Joined(chunks))
  {
    hide *;
    ghost var before := FilterValue(f);
    out := "";
    var k, fed := 0, 0;
    NothingJoined(chunks);
    FedNothing(before);
    while fed < |chunks|
      invariant 0 <= fed <= |chunks| && FilterValid(f) && Fed(before, FilterValue(f), Joined(chunks[..fed]), out)
    {
      ghost var mid := FilterValue(f);
      var portion;
      portion, k := FeedChunk(f, chunks[fed], output, rooms, k);
      JoinedNext(chunks, fed);
      FedTwice(before, mid, FilterValue(f), Joined(chunks[..fed]), out, chunks[fed], portion);
      out, fed := out + portion, fed + 1;
    }
    assert chunks[..fed] == chunks;
    FedAll(before, FilterValue(f), Joined(chunks), out);
    var rest := DrainAll(f, output, rooms, k);
    out := out + rest;
  }

  lemma FedAll(before: State, after: State, s: string, out: string)
    requires Fed(before, after, s, out)
    ensures Total(before, s) == out + Total(after, "")
  {
    Unit(s);
    assert Total(before, s + "") == out + Total(after, "");
  }

  lemma NothingJoined(chunks: seq<string>)
    ensures chunks[..0] == [] && Joined([]) == ""
  {}

  lemma JoinedNext(chunks: seq<string>, k: nat)
    requires k < |chunks|
    ensures Joined(chunks[..k + 1]) == Joined(chunks[..k]) + chunks[k]
  {
    assert chunks[..k + 1][..k] == chunks[..k];
  }

  /** A new LF-to-CRLF filter makes of any chunks, in any calls, what the whole buffer becomes. */
  method RunLfToCrlf(chunks: seq<string>, output: array<char>, rooms: nat -> nat) returns (out: string)
    requires forall i :: 0 < rooms(i) <= output.Length
    modifies output
    ensures out == ToCrlf(Joined(chunks), false)
  {
    var l := new LfToCrlfFilter();
    StreamingIsWholeBuffer(Joined(chunks));
    out := Run(LfToCrlf(l), chunks, output, rooms);
  }

  /** cascade_filter: a filter that does first the one and then the other; a null filter adds nothing. */
  method JoinFilters(one: Filter, two: Filter) returns (f: Filter)
    requires FilterValid(one) && FilterValid(two) && Objects(one) !! Objects(two)
    ensures FilterValid(f) && fresh(Objects(f) - Objects(one) - Objects(two))
    ensures forall s :: Total(FilterValue(f), s) == Total(FilterValue(two), Total(FilterValue(one), s))
  {
    if one.Null? {
      f := two;
    } else if two.Null? {
      f := one;
    } else {
      var c := new CascadeFilter(one, two);
      f := Cascade(c);
      forall s ensures Total(FilterValue(f), s) == Total(FilterValue(two), Total(FilterValue(one), s)) {
        StreamingIsWholeBuffer(s);
      }
    }
  }

  lemma NoInput(before: State, now: State, input: Option<string>, used: nat, out: string)
    requires Sofar(before, now, input, used, out) && input.None?
    ensures used == 0
  {
  }

  lemma FilteredFed(before: State, after: State, chunk: string, isize: nat, out: string)
    requires Filtered(before, after, Some(chunk), isize, out)
    ensures isize <= |chunk| && Fed(before, after, chunk[..|chunk| - isize], out)
    ensures chunk != "" ==> isize < |chunk| || out != ""
  {
    hide Fed;
  }

  lemma OwesLess(before: State, after: State, out: string)
    requires Drained(before, after, out) && out != ""
    ensures |Total(after, "")| < |Total(before, "")|
  {
    hide Total;
  }

  /** What the loop of the cascade has done so far. */
  ghost predicate Sofar(before: State, now: State, input: Option<string>, used: nat, out: string) {
    if input.Some? then used <= |input.value| && Fed(before, now, input.value[..used], out)
    else used == 0 && Drained(before, now, out)
  }

  lemma SofarStarts(st: State, input: Option<string>)
    ensures Sofar(st, st, input, 0, "")
  {
    FedNothing(st);
    FedIsDrained(st, st, "");
    assert input.Some? ==> input.value[..0] == "";
  }

  /** What was put out before stays in front of what is put out now. */
  lemma JoinOutput(output: array<char>, at: nat, filled: nat, more: nat, start: string)
    requires at + filled + more <= output.Length && |start| == at + filled && output[..at + filled] == start
    ensures output[at..at + (filled + more)] == output[at..at + filled + more] ==
      start[at..] + output[at + filled..at + filled + more]
    ensures output[..at] == start[..at]
  {
  }

  lemma SofarOutput(before: State, mid: State, now: State, input: Option<string>, used: nat, out: string, more: string)
    requires Sofar(before, mid, input, used, out) && Fed(mid, now, "", more)
    ensures Sofar(before, now, input, used, out + more)
  {
    if input.Some? {
      FedTwice(before, mid, now, input.value[..used], out, "", more);
      Unit(input.value[..used]);
    } else {
      FedIsDrained(mid, now, more);
      SofarDrained(before, mid, now, input, out, more);
    }
  }

  lemma SofarDrained(before: State, mid: State, now: State, input: Option<string>, out: string, more: string)
    requires input.None? && Sofar(before, mid, input, 0, out) && Drained(mid, now, more)
    ensures Sofar(before, now, input, 0, out + more)
  {
    hide Total;
    Assoc(out, more, Total(now, ""));
  }

  lemma SofarInput(before: State, mid: State, now: State, input: Option<string>, used: nat, out: string,
      chunk: string, took: nat)
    requires input.Some? && used <= |input.value| && chunk == input.value[used..] && took <= |chunk|
    requires Sofar(before, mid, input, used, out) && Fed(mid, now, chunk[..took], "")
    ensures Sofar(before, now, input, used + took, out)
  {
    hide Fed;
    FedTwice(before, mid, now, input.value[..used], out, chunk[..took], "");
    Unit(out);
    assert input.value[..used + took] == input.value[..used] + chunk[..took];
  }

  lemma SofarEnds(before: State, now: State, input: Option<string>, used: nat, out: string)
    requires Sofar(before, now, input, used, out) && input != Some("")
    requires out == "" ==> if input.Some? then used > 0 else Total(now, "") == ""
    ensures Filtered(before, now, input, if input.Some? then |input.value| - used else 0, out)
  {
    hide Fed, Drained;
    if input.Some? {
      assert input.value[..|input.value| - (|input.value| - used)] == input.value[..used];
    }
  }
}
