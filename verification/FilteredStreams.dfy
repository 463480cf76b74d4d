/** streaming.c: reading an object through a stream filter, in whatever portions it is asked for. */
module FilteredStreams {
  import opened Basics
  import opened StreamFilters
  import opened StreamCascade

  /** The portions the upstream still delivers: none empty, none longer than what is asked for. */
  predicate Portions(upstream: seq<string>) {
    forall p :: p in upstream ==> 0 < |p| <= FILTER_BUFFER
  }

  lemma PortionsFirst(upstream: seq<string>)
    requires Portions(upstream) && upstream != []
    ensures 0 < |upstream[0]| <= FILTER_BUFFER && Portions(upstream[1..])
  {}

  lemma {:induction false} JoinedFirst(parts: seq<string>)
    requires parts != []
    ensures Joined(parts) == parts[0] + Joined(parts[1..])
  {
    var n := |parts| - 1;
    if n > 0 {
      JoinedFirst(parts[..n]);
      assert parts[..n][1..] == parts[1..][..n - 1] && parts[1..][n - 1] == parts[n];
      Assoc(parts[0], Joined(parts[1..][..n - 1]), parts[n]);
    } else {
      assert Joined(parts[..0]) == "" && Joined(parts[1..]) == "";
      Unit(parts[0]);
    }
  }

  /** A stream that passes what the upstream delivers through a filter. */
  class FilteredStream {
    const filter: Filter
    const ibuf: array<char>
    const obuf: array<char>
    /** Whether the upstream fails when there is nothing more to deliver. */
    const broken: bool
    var upstream: seq<string>
    var iPtr: nat
    var iEnd: nat
    var oPtr: nat
    var oEnd: nat
    var inputFinished: bool

    ghost function Repr(): set<object> {
      {this, ibuf, obuf} + Objects(filter)
    }

    ghost predicate Valid()
      reads Repr()
    {
      && ibuf.Length == obuf.Length == FILTER_BUFFER && ibuf != obuf
      && this !in Objects(filter) && ibuf !in Objects(filter) && obuf !in Objects(filter)
      && FilterValid(filter) && iPtr <= iEnd <= FILTER_BUFFER && oPtr <= oEnd <= FILTER_BUFFER
      && Portions(upstream) && (inputFinished ==> iPtr == iEnd && upstream == [] && !broken)
    }

    /** The input not yet fed to the filter. */
    ghost function Unfed(): string
      requires Valid()
      reads Repr()
    {
      ibuf[iPtr..iEnd] + Joined(upstream)
    }

    /** All that reading to the end would give. */
    ghost function Owed(): string
      requires Valid()
      reads Repr()
    {
      obuf[oPtr..oEnd] + Total(FilterValue(filter), Unfed())
    }

    // What a round of the loop makes less of: upstream, input, what the filter holds back, output.

    ghost function Ahead(): nat
      requires Valid()
      reads Repr()
    {
      |upstream| + if inputFinished then 0 else 1
    }

    ghost function Left(): nat
      requires Valid()
      reads Repr()
    {
      iEnd - iPtr
    }

    ghost function Debt(): nat
      requires Valid()
      reads Repr()
    {
      |Total(FilterValue(filter), "")|
    }

    ghost function Ready(): nat
      requires Valid()
      reads Repr()
    {
      oEnd - oPtr
    }

    /** attach_stream_filter. */
    constructor (filter: Filter, upstream: seq<string>, broken: bool)
      requires FilterValid(filter) && Portions(upstream)
      ensures Valid() && this.filter == filter && this.broken == broken && fresh(Repr() - Objects(filter))
      ensures Owed() == Total(old(FilterValue(filter)), Joined(upstream))
    {
      this.filter, this.upstream, this.broken := filter, upstream, broken;
      ibuf := new char[FILTER_BUFFER];
      obuf := new char[FILTER_BUFFER];
      iPtr, iEnd, oPtr, oEnd, inputFinished := 0, 0, 0, 0, false;
      new;
      assert ibuf[0..0] == "" && obuf[0..0] == "";
      Unit(Joined(upstream));
      Unit(Total(FilterValue(filter), Joined(upstream)));
    }

    /** Hand out filtered output that is there already. */
    method Move(buf: array<char>, filled: nat, sz: nat) returns (toMove: nat)
      requires Valid() && buf !in Repr() && filled + sz <= buf.Length && oPtr < oEnd && sz > 0
      modifies this`oPtr, buf
      ensures Valid() && 0 < toMove <= sz && oPtr == old(oPtr) + toMove && buf[..filled] == old(buf[..filled])
      ensures old(Owed()) == buf[filled..filled + toMove] + Owed()
    {
      hide Total, Portions, Joined;
      ghost var unfed := Total(FilterValue(filter), Unfed());
      toMove := oEnd - oPtr;
      if sz < toMove {
        toMove := sz;
      }
      var text := obuf[oPtr..oPtr + toMove];
      CopyOut(text, buf, filled);
      assert obuf[oPtr..oEnd] == text + obuf[oPtr + toMove..oEnd];
      Assoc(text, obuf[oPtr + toMove..oEnd], unfed);
      oPtr := oPtr + toMove;
    }

    /** Feed the filter with what is left of the input. */
    method Feed()
      requires Valid() && oPtr == oEnd && iPtr < iEnd
      modifies Repr()
      ensures Valid() && Owed() == old(Owed()) && upstream == old(upstream) && inputFinished == old(inputFinished)
      ensures iEnd == old(iEnd) && old(iPtr) <= iPtr
      ensures iPtr > old(iPtr) || Debt() < old(Debt())
    {
      hide Filtered, Fed, Total, Portions, Drained;
      ghost var before, more := FilterValue(filter), Joined(upstream);
      var text := ibuf[iPtr..iEnd];
      Unit(Total(before, text + more));
      assert obuf[oPtr..oEnd] == "";
      var toFeed, free := StreamFilter(filter, Some(text), obuf, 0, FILTER_BUFFER);
      assert ibuf[iPtr..iEnd] == text;
      oPtr, oEnd := 0, FILTER_BUFFER - free;
      FilteredFed(before, FilterValue(filter), text, toFeed, obuf[0..oEnd]);
      iPtr := iEnd - toFeed;
      assert ibuf[iPtr..iEnd] == text[|text| - toFeed..];
      FedFront(before, FilterValue(filter), text, |text| - toFeed, obuf[0..oEnd], more);
      if toFeed == |text| {
        assert text[..0] == "";
        FedIsDrained(before, FilterValue(filter), obuf[0..oEnd]);
        OwesLess(before, FilterValue(filter), obuf[0..oEnd]);
      }
    }

    /** Drain the filter when there is no more input. */
    method Drain()
      requires Valid() && oPtr == oEnd && inputFinished
      modifies Repr()
      ensures Valid() && Owed() == old(Owed()) && upstream == old(upstream) && inputFinished
      ensures iPtr == old(iPtr) && iEnd == old(iEnd) && oPtr == 0
      ensures if oEnd == 0 then Owed() == ""
              else Debt() < old(Debt())
    {
      hide Filtered, Fed, Total, Portions, Drained;
      ghost var before := FilterValue(filter);
      assert obuf[oPtr..oEnd] == "" && ibuf[iPtr..iEnd] == "";
      assert Joined([]) == "";
      Unit("");
      Unit(Total(before, ""));
      var toFeed, free := StreamFilter(filter, None, obuf, 0, FILTER_BUFFER);
      oPtr, oEnd := 0, FILTER_BUFFER - free;
      assert ibuf[iPtr..iEnd] == "";
      FilteredDrained(before, FilterValue(filter), toFeed, obuf[0..oEnd]);
      if oEnd == 0 {
        assert obuf[0..oEnd] == "";
      } else {
        OwesLess(before, FilterValue(filter), obuf[0..oEnd]);
      }
    }

    /** Refill the input from the upstream, or learn that there is no more. */
    method Refill() returns (failed: bool)
      requires Valid() && oPtr == oEnd && iPtr == iEnd && !inputFinished
      modifies this`iPtr, this`iEnd, this`upstream, this`inputFinished, ibuf
      ensures Valid() && Owed() == old(Owed()) && oPtr == oEnd
      ensures failed <==> old(upstream) == [] && broken
      ensures failed ==> upstream == [] && iPtr == iEnd
      ensures !failed ==> (inputFinished && upstream == old(upstream)) || |upstream| < |old(upstream)|
    {
      hide Total, Portions, Joined;
      assert ibuf[iPtr..iEnd] == "";
      Unit(Joined(upstream));
      iEnd, iPtr, failed := 0, 0, false;
      if upstream != [] {
        var portion := upstream[0];
        PortionsFirst(upstream);
        JoinedFirst(upstream);
        CopyOut(portion, ibuf, 0);
        iEnd, upstream := |portion|, upstream[1..];
        assert ibuf[0..iEnd] == portion;
      } else if broken {
        failed := true;
        assert ibuf[0..0] == "";
      } else {
        inputFinished := true;
        assert ibuf[0..0] == "";
      }
    }

    /** One round of the loop. */
    method Round(buf: array<char>, filled0: nat, sz: nat) returns (filled: nat, done: bool, failed: bool)
      requires Valid() && buf !in Repr() && filled0 < sz <= buf.Length
      modifies Repr(), buf
      ensures Valid() && filled0 <= filled <= sz && buf[..filled0] == old(buf[..filled0])
      ensures old(Owed()) == buf[filled0..filled] + Owed() && (done ==> Owed() == "" && !broken)
      ensures failed ==> broken && filled == filled0 && AtBreak()
      ensures done || failed || Ahead() < old(Ahead())
        || (Ahead() == old(Ahead()) && (Left() < old(Left())
             || (Left() == old(Left()) && (Debt() < old(Debt()) || (Debt() == old(Debt()) && Ready() < old(Ready()))))))
    {
      hide Total, Portions, Joined, Unfed, Owed;
      filled, done, failed := filled0, false, false;
      ghost var before := Owed();
      Unit(before);
      if oPtr < oEnd {
        var moved := Move(buf, filled, sz - filled);
        filled := filled + moved;
      } else if iPtr < iEnd {
        Feed();
      } else if inputFinished {
        Drain();
        done := oEnd == 0;
      } else {
        failed := Refill();
      }
      assert filled == filled0 ==> buf[filled0..filled] == "";
    }

    /** All that the upstream has delivered is through; what is owed still is what the filter holds back. */
    ghost predicate AtBreak()
      reads this
    {
      upstream == [] && iPtr == iEnd && oPtr == oEnd
    }

    /**
     * read_istream_filtered: hands out exactly the next `sz` characters of what is owed, or all of it
     * if there are fewer. If the upstream is going to fail it hands out `sz` characters or fails; it
     * fails only if there are fewer without those that the filter holds back, and so never takes the
     * failure for an end.
     */
    method Read(buf: array<char>, sz: nat) returns (filled: int)
      requires Valid() && buf !in Repr() && sz <= buf.Length
      modifies Repr(), buf
      ensures Valid() && -1 <= filled <= sz
      ensures filled >= 0 ==> old(Owed()) == buf[..filled] + Owed() && (filled == sz || (Owed() == "" && !broken))
      ensures !broken ==> filled == if sz < |old(Owed())| then sz else |old(Owed())|
      ensures filled < 0 ==> broken && AtBreak() && |old(Owed())| < sz + |Owed()|
    {
      hide Total, Portions, Valid, Owed, Ahead, Left, Debt, Ready, AtBreak;
      ghost var before := Owed();
      filled := 0;
      var done, failed := false, false;
      Unit(before);
      assert buf[..filled] == "";
      while filled < sz && !done
        invariant Valid() && 0 <= filled <= sz && before == buf[..filled] + Owed()
        invariant done ==> Owed() == "" && !broken
        decreases !done, Ahead(), Left(), Debt(), Ready()
      {
        ghost var start, at: nat := buf[..filled], filled;
        filled, done, failed := Round(buf, filled, sz);
        Assoc(start, buf[at..filled], Owed());
        assert buf[..filled] == start + buf[at..filled];
        if failed {
          return -1;
        }
      }
    }
  }

  /** A part of the text fed, and more behind it. */
  lemma FedFront(before: State, after: State, text: string, took: nat, out: string, more: string)
    requires took <= |text| && Fed(before, after, text[..took], out)
    ensures Total(before, text + more) == out + Total(after, text[took..] + more)
  {
    var chunk, rest := text[..took], text[took..];
    assert chunk + rest == text;
    hide *;
    FedThen(before, after, chunk, out, rest + more);
    Assoc(chunk, rest, more);
  }

  lemma FedThen(before: State, after: State, chunk: string, out: string, s: string)
    requires Fed(before, after, chunk, out)
    ensures Total(before, chunk + s) == out + Total(after, s)
  {
    hide Total;
  }

  /**
   * The loop of stream_blob_to_fd: reading portions of any sizes until nothing comes gives the conversion
   * of the whole input, or fails exactly if the upstream does.
   */
  method ReadToEnd(filter: Filter, upstream: seq<string>, broken: bool, buf: array<char>, sizes: nat -> nat)
    returns (out: Option<string>)
    requires FilterValid(filter) && Portions(upstream) && buf !in Objects(filter)
    requires forall k :: 0 < sizes(k) <= buf.Length
    modifies Objects(filter), buf
    ensures out == if broken then None else Some(old(Total(FilterValue(filter), Joined(upstream))))
  {
    hide Total, Portions, FilteredStream.Valid, FilteredStream.Owed, FilteredStream.AtBreak;
    var st := new FilteredStream(filter, upstream, broken);
    ghost var whole := st.Owed();
    var text := "";
    var k := 0;
    Unit(whole);
    while true
      invariant st.Valid() && buf !in st.Repr() && whole == text + st.Owed()
      decreases |st.Owed()|
    {
      var filled := st.Read(buf, sizes(k));
      if filled < 0 {
        return None;
      }
      if filled == 0 {
        Unit(text);
        return Some(text);
      }
      Assoc(text, buf[..filled], st.Owed());
      text, k := text + buf[..filled], k + 1;
    }
  }
}
