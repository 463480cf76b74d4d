/** convert.c: line-ending conversion of whole buffers. */
module LineEndings {
  import opened Basics

  /** Every line feed that no carriage return precedes gets one; `wasCr` tells what came before `s`. */
  function ToCrlf(s: string, wasCr: bool): string {
    if s == "" then ""
    else if s[0] == '\n' && !wasCr then ['\r', '\n'] + ToCrlf(s[1..], false)
    else [s[0]] + ToCrlf(s[1..], s[0] == '\r')
  }

  /** Every carriage return right before a line feed is dropped. */
  function FromCrlf(s: string): string {
    if s == "" then ""
    else (if s[0] == '\r' && |s| > 1 && s[1] == '\n' then "" else [s[0]]) + FromCrlf(s[1..])
  }

  predicate EndsInCr(s: string, wasCr: bool) {
    if s == "" then wasCr else s[|s| - 1] == '\r'
  }

  lemma {:induction false} ToCrlfConcat(a: string, b: string, wasCr: bool)
    ensures ToCrlf(a + b, wasCr) == ToCrlf(a, wasCr) + ToCrlf(b, EndsInCr(a, wasCr))
  {
    if a == "" {
      assert a + b == b;
    } else {
      assert (a + b)[1..] == a[1..] + b && (a + b)[0] == a[0];
      var cr := if a[0] == '\n' && !wasCr then false else a[0] == '\r';
      ToCrlfConcat(a[1..], b, cr);
      assert EndsInCr(a[1..], cr) == EndsInCr(a, wasCr);
      var first := if a[0] == '\n' && !wasCr then ['\r', '\n'] else [a[0]];
      Assoc(first, ToCrlf(a[1..], cr), ToCrlf(b, EndsInCr(a, wasCr)));
      hide EndsInCr;
    }
  }

  /** How many line feeds there are, and how many of them directly follow a carriage return. */
  function Lfs(s: string): nat {
    if s == "" then 0 else Lfs(s[..|s| - 1]) + if s[|s| - 1] == '\n' then 1 else 0
  }

  function Crs(s: string): nat {
    if s == "" then 0 else Crs(s[..|s| - 1]) + if s[|s| - 1] == '\r' then 1 else 0
  }

  function Crlfs(s: string): nat {
    if s == "" then 0
    else Crlfs(s[..|s| - 1]) + if |s| > 1 && s[|s| - 2] == '\r' && s[|s| - 1] == '\n' then 1 else 0
  }

  /** Where all line feeds already follow a carriage return, there is nothing to convert. */
  lemma {:induction false} AlreadyCrlf(s: string)
    ensures Crlfs(s) <= Lfs(s)
    ensures Lfs(s) == Crlfs(s) ==> ToCrlf(s, false) == s
  {
    if s != "" {
      var n := |s| - 1;
      AlreadyCrlf(s[..n]);
      assert s == s[..n] + [s[n]];
      ToCrlfConcat(s[..n], [s[n]], false);
      assert [s[n]][1..] == "";
      assert n > 0 ==> s[..n][n - 1] == s[n - 1];
    }
  }

  // ---- Settings -----------------------------------------------------------------------------

  datatype CrlfAction = CrlfGuess | CrlfBinary | CrlfText | CrlfInput | CrlfCrlf | CrlfAuto

  datatype AutoCrlf = AutoFalse | AutoTrue | AutoInput

  datatype Eol = EolUnset | EolCrlf | EolLf

  datatype SafeCrlf = SafeFalse | SafeFail | SafeWarn

  /** auto_crlf and core_eol, and whether the platform's own line ending is CRLF. */
  datatype Settings = Settings(autoCrlf: AutoCrlf, coreEol: Eol, nativeCrlf: bool)

  /** output_eol: the line ending a checkout gives. */
  function OutputEol(settings: Settings, action: CrlfAction): Eol {
    if action == CrlfBinary || (action == CrlfGuess && settings.autoCrlf == AutoFalse) then EolUnset
    else if action == CrlfCrlf then EolCrlf
    else if action == CrlfInput then EolLf
    else if settings.autoCrlf == AutoTrue then EolCrlf
    else if settings.autoCrlf == AutoInput then EolLf
    else if settings.coreEol == EolUnset then (if settings.nativeCrlf then EolCrlf else EolLf)
    else settings.coreEol
  }

  /** What text without a line ending of its own is checked out with: core.autocrlf first, then core.eol. */
  predicate MeansCrlf(settings: Settings) {
    match settings.autoCrlf
    case AutoTrue => true
    case AutoInput => false
    case AutoFalse => settings.coreEol == EolCrlf || (settings.coreEol == EolUnset && settings.nativeCrlf)
  }

  /** Whether it has to be guessed if a buffer is text. */
  predicate Guessing(action: CrlfAction) {
    action == CrlfAuto || action == CrlfGuess
  }

  /** Text with all carriage returns followed by line feeds, as far as can be guessed. */
  predicate LooksLikeText(s: string) {
    Crs(s) == Crlfs(s) && !IsBinary(Stats(s))
  }

  /** What is checked in as it is. */
  predicate LeftAlone(s: string, action: CrlfAction, settings: Settings, returnInIndex: bool) {
    || OutputEol(settings, action) == EolUnset
    || s == ""
    || (Guessing(action) && !LooksLikeText(s))
    || (action == CrlfGuess && returnInIndex)
  }

  function CheckedIn(s: string, action: CrlfAction, settings: Settings, returnInIndex: bool): string {
    if LeftAlone(s, action, settings, returnInIndex) then s else FromCrlf(s)
  }

  function CheckedOut(s: string, action: CrlfAction, settings: Settings): string {
    if OutputEol(settings, action) != EolCrlf then s
    else if Guessing(action) && !LooksLikeText(s) then s
    else if action == CrlfGuess && Crs(s) > 0 then s
    else ToCrlf(s, false)
  }

  /** What check_safe_crlf complains about. */
  predicate Irreversible(s: string, eol: Eol) {
    if eol == EolLf then Crlfs(s) > 0
    else eol == EolCrlf && Lfs(s) != Crlfs(s)
  }

  predicate Reported(s: string, action: CrlfAction, settings: Settings, returnInIndex: bool) {
    !LeftAlone(s, action, settings, returnInIndex) && Irreversible(s, OutputEol(settings, action))
  }

  // ---- Text and binary ----------------------------------------------------------------------

  predicate IsNul(c: char) {
    c == '\0'
  }

  predicate IsPrintable(c: char) {
    (c as int >= 32 && c as int != 127) || c as int in {8, 9, 27, 12}
  }

  predicate IsNonprintable(c: char) {
    c != '\r' && c != '\n' && !IsPrintable(c)
  }

  /** How many characters of a kind there are. */
  function Amount(s: string, kind: char -> bool): nat {
    if s == "" then 0 else Amount(s[..|s| - 1], kind) + if kind(s[|s| - 1]) then 1 else 0
  }

  lemma {:induction false} AmountConcat(a: string, b: string, kind: char -> bool)
    ensures Amount(a + b, kind) == Amount(a, kind) + Amount(b, kind)
  {
    if b == "" {
      assert a + b == a;
    } else {
      var n := |b| - 1;
      AmountConcat(a, b[..n], kind);
      assert (a + b)[..|a + b| - 1] == a + b[..n];
    }
  }

  /** Characters of other kinds do not matter. */
  lemma AmountFirst(c: char, s: string, kind: char -> bool)
    ensures Amount([c] + s, kind) == (if kind(c) then 1 else 0) + Amount(s, kind)
  {
    AmountConcat([c], s, kind);
    assert [c][..0] == "" && Amount([c], kind) == if kind(c) then 1 else 0;
  }

  predicate EndsInEof(s: string) {
    s != "" && s[|s| - 1] as int == 26
  }

  datatype TextStat = TextStat(nul: nat, cr: nat, lf: nat, crlf: nat, printable: nat, nonprintable: nat)

  /** What there is to count; an end-of-file character at the end is not unprintable. */
  function Stats(s: string): TextStat {
    TextStat(Amount(s, IsNul), Crs(s), Lfs(s), Crlfs(s), Amount(s, IsPrintable),
      Amount(s, IsNonprintable) - if EndsInEof(s) then 1 else 0)
  }

  /** is_binary. */
  predicate IsBinary(stats: TextStat) {
    stats.nul > 0 || stats.printable / 128 < stats.nonprintable
  }

  /** Every character is counted as one of four kinds. */
  lemma {:induction false} AllCounted(s: string)
    ensures Amount(s, IsPrintable) + Amount(s, IsNonprintable) + Crs(s) + Lfs(s) == |s|
    ensures Amount(s, IsNul) <= Amount(s, IsNonprintable)
  {
    if s != "" {
      AllCounted(s[..|s| - 1]);
    }
  }

  /** A text is binary exactly if it has a NUL, or less than 128 printable characters to each unprintable one. */
  lemma BinaryIff(stats: TextStat)
    ensures IsBinary(stats) <==> stats.nul > 0 || stats.printable < 128 * stats.nonprintable
  {}

  /** Printable are the characters from the blank on but DEL, and backspace, tab, escape and form feed. */
  lemma PrintableAre(c: char)
    ensures ' ' <= c <= '~' ==> IsPrintable(c)
    ensures c as int >= 128 ==> IsPrintable(c)
    ensures c as int == 127 || (c < ' ' && c as int !in {8, 9, 10, 12, 13, 27}) ==> IsNonprintable(c)
    ensures c as int in {8, 9, 12, 27} ==> IsPrintable(c)
  {}

  /** gather_stats. */
  method GatherStats(buf: string) returns (stats: TextStat)
    ensures stats == Stats(buf)
  {
    hide Amount, Crs, Lfs, Crlfs;
    var nul, cr, lf, crlf, printable, nonprintable := 0, 0, 0, 0, 0, 0;
    var i := 0;
    CountNone(buf);
    while i < |buf|
      invariant 0 <= i <= |buf| && cr == Crs(buf[..i]) && lf == Lfs(buf[..i])
      invariant crlf ==
        Crlfs(if i < |buf| && i > 0 && buf[i - 1] == '\r' && buf[i] == '\n' then buf[..i + 1] else buf[..i])
      invariant nul == Amount(buf[..i], IsNul) && printable == Amount(buf[..i], IsPrintable)
      invariant nonprintable == Amount(buf[..i], IsNonprintable)
    {
      CountNext(buf, i);
      if i + 1 < |buf| {
        CountNext(buf, i + 1);
      }
      var c := buf[i];
      if c == '\r' {
        cr := cr + 1;
        if i + 1 < |buf| && buf[i + 1] == '\n' {
          crlf := crlf + 1;
        }
      } else if c == '\n' {
        lf := lf + 1;
      } else if c as int == 127 {
        nonprintable := nonprintable + 1;
      } else if c as int < 32 {
        if c as int in {8, 9, 27, 12} {
          printable := printable + 1;
        } else {
          if c == '\0' {
            nul := nul + 1;
          }
          nonprintable := nonprintable + 1;
        }
      } else {
        printable := printable + 1;
      }
      i := i + 1;
    }
    assert buf[..i] == buf;
    if |buf| >= 1 && buf[|buf| - 1] as int == 26 {
      nonprintable := nonprintable - 1;
    }
    stats := TextStat(nul, cr, lf, crlf, printable, nonprintable);
  }

  lemma CountNone(s: string)
    ensures Crs(s[..0]) == Lfs(s[..0]) == Crlfs(s[..0]) == 0
    ensures Amount(s[..0], IsNul) == Amount(s[..0], IsPrintable) == Amount(s[..0], IsNonprintable) == 0
    ensures |s| > 0 && s[|s| - 1] as int == 26 ==> Amount(s, IsNonprintable) > 0
  {}

  lemma CountNext(s: string, i: nat)
    requires i < |s|
    ensures Crs(s[..i + 1]) == Crs(s[..i]) + if s[i] == '\r' then 1 else 0
    ensures Lfs(s[..i + 1]) == Lfs(s[..i]) + if s[i] == '\n' then 1 else 0
    ensures Crlfs(s[..i + 1]) == Crlfs(s[..i]) + if i > 0 && s[i - 1] == '\r' && s[i] == '\n' then 1 else 0
    ensures Amount(s[..i + 1], IsNul) == Amount(s[..i], IsNul) + if IsNul(s[i]) then 1 else 0
    ensures Amount(s[..i + 1], IsPrintable) == Amount(s[..i], IsPrintable) + if IsPrintable(s[i]) then 1 else 0
    ensures Amount(s[..i + 1], IsNonprintable) ==
            Amount(s[..i], IsNonprintable) + if IsNonprintable(s[i]) then 1 else 0
  {
    assert s[..i + 1][..i] == s[..i];
  }

  /** Without a line feed nothing is added. */
  lemma {:induction false} NoLineFeed(s: string, wasCr: bool)
    requires '\n' !in s
    ensures ToCrlf(s, wasCr) == s
  {
    if s != "" {
      NoLineFeed(s[1..], s[0] == '\r');
      assert s == [s[0]] + s[1..];
    }
  }

  /** crlf_to_worktree; nothing if the text stays as it is. */
  method CrlfToWorktree(src: string, action: CrlfAction, settings: Settings) returns (buf: Option<string>)
    ensures (if buf.Some? then buf.value else src) == CheckedOut(src, action, settings)
    ensures buf.None? <==> CheckedOut(src, action, settings) == src
    ensures action == CrlfBinary || action == CrlfInput ==> buf.None?
    ensures action == CrlfCrlf ==> (if buf.Some? then buf.value else src) == ToCrlf(src, false)
    ensures action == CrlfText ==> if MeansCrlf(settings)
      then (if buf.Some? then buf.value else src) == ToCrlf(src, false) else buf.None?
    ensures Guessing(action) && !MeansCrlf(settings) ==> buf.None?
    ensures action == CrlfGuess && (settings.autoCrlf == AutoFalse || '\r' in src) ==> buf.None?
  {
    CrsCount(src);
    if src == "" || OutputEol(settings, action) != EolCrlf {
      return None;
    }
    var stats := GatherStats(src);
    AlreadyCrlf(src);
    if stats.lf == 0 || stats.lf == stats.crlf {
      return None;
    }
    if Guessing(action) {
      if action == CrlfGuess && (stats.cr > 0 || stats.crlf > 0) {
        CrlfsInCrs(src);
        return None;
      }
      if stats.cr != stats.crlf || IsBinary(stats) {
        return None;
      }
    }
    var out := AddReturns(src);
    buf := Some(out);
    LongerIfChanged(src);
  }

  /** The loop of crlf_to_worktree. */
  method AddReturns(src: string) returns (out: string)
    ensures out == ToCrlf(src, false)
  {
    out := "";
    var at := 0;
    while true
      invariant 0 <= at <= |src| && out == ToCrlf(src[..at], false)
      invariant at > 0 ==> src[at - 1] == '\n'
      decreases |src| - at
    {
      var nl := at;
      while nl < |src| && src[nl] != '\n'
        invariant at <= nl <= |src| && forall j :: at <= j < nl ==> src[j] != '\n'
      {
        nl := nl + 1;
      }
      if nl == |src| {
        break;
      }
      LineConverted(src, at, nl);
      if nl > at && src[nl - 1] == '\r' {
        out := out + src[at..nl + 1];
      } else {
        out := out + src[at..nl] + "\r\n";
      }
      at := nl + 1;
    }
    LastLine(src, at);
    out := out + src[at..];
  }

  lemma LineFeedAlone()
    ensures ToCrlf("\n", false) == "\r\n" && ToCrlf("\n", true) == "\n"
  {
    assert ['\n'][1..] == "";
  }

  lemma LineConverted(src: string, at: nat, nl: nat)
    requires at <= nl < |src| && src[nl] == '\n' && forall j :: at <= j < nl ==> src[j] != '\n'
    requires at > 0 ==> src[at - 1] == '\n'
    ensures ToCrlf(src[..nl + 1], false) == ToCrlf(src[..at], false) +
      if nl > at && src[nl - 1] == '\r' then src[at..nl + 1] else src[at..nl] + "\r\n"
  {
    hide ToCrlf;
    var line := src[at..nl];
    assert src[..nl + 1] == src[..at] + (line + ['\n']);
    assert at > 0 ==> src[..at][at - 1] == src[at - 1];
    ToCrlfConcat(src[..at], line + ['\n'], false);
    ToCrlfConcat(line, ['\n'], false);
    NoLineFeed(line, false);
    LineFeedAlone();
    assert src[at..nl + 1] == line + ['\n'];
  }

  lemma LastLine(src: string, at: nat)
    requires at <= |src| && (forall j :: at <= j < |src| ==> src[j] != '\n') && (at > 0 ==> src[at - 1] == '\n')
    ensures ToCrlf(src, false) == ToCrlf(src[..at], false) + src[at..]
  {
    assert src == src[..at] + src[at..];
    assert at > 0 ==> src[..at][at - 1] == src[at - 1];
    ToCrlfConcat(src[..at], src[at..], false);
    NoLineFeed(src[at..], false);
  }

  /** The conversion adds one character for each bare line feed. */
  lemma {:induction false} ToCrlfLength(s: string)
    ensures |ToCrlf(s, false)| + Crlfs(s) == |s| + Lfs(s)
  {
    if s != "" {
      var n := |s| - 1;
      ToCrlfLength(s[..n]);
      assert s == s[..n] + [s[n]];
      ToCrlfConcat(s[..n], [s[n]], false);
      assert [s[n]][1..] == "";
      assert n > 0 ==> s[..n][n - 1] == s[n - 1];
    }
  }

  lemma LongerIfChanged(s: string)
    ensures Lfs(s) != Crlfs(s) ==> ToCrlf(s, false) != s
  {
    ToCrlfLength(s);
  }

  /** What crlf_to_git answers, and the text if it has made one. */
  datatype Cleaned = Cleaned(ret: bool, text: Option<string>, warned: bool) | Died

  /** crlf_to_git; without `src`, or with `dry`, it only says whether it would convert. */
  method CrlfToGit(src: Option<string>, dry: bool, action: CrlfAction, settings: Settings, returnInIndex: bool,
      safe: SafeCrlf)
    returns (r: Cleaned)
    ensures src.None? && dry ==> r == Cleaned(OutputEol(settings, action) != EolUnset, None, false)
    ensures src.None? && !dry ==> r == Cleaned(false, None, false)
    ensures src.Some? ==> (r == Died <==> safe == SafeFail && Reported(src.value, action, settings, returnInIndex))
    ensures src.Some? && r != Died ==>
      var after := CheckedIn(src.value, action, settings, returnInIndex);
      && r.warned == (safe == SafeWarn && Reported(src.value, action, settings, returnInIndex))
      && r.ret == (Crs(src.value) > 0 && !LeftAlone(src.value, action, settings, returnInIndex))
      && r.text == (if r.ret && !dry then Some(after) else None)
      && (!r.ret ==> after == src.value)
  {
    hide Crs, Lfs, Crlfs, Amount, FromCrlf, IsBinary, EndsInEof;
    NoneAtAll();
    if action == CrlfBinary || (action == CrlfGuess && settings.autoCrlf == AutoFalse) || src == Some("") {
      return Cleaned(false, None, false);
    }
    if dry && src.None? {
      return Cleaned(true, None, false);
    }
    var text := if src.Some? then src.value else "";
    var stats := GatherStats(text);
    if Guessing(action) {
      if stats.cr != stats.crlf || IsBinary(stats) || (action == CrlfGuess && returnInIndex) {
        return Cleaned(false, None, false);
      }
    }
    var warned := false;
    if safe != SafeFalse && Complaint(stats, OutputEol(settings, action)) {
      if safe == SafeFail {
        return Died;
      }
      warned := true;
    }
    if stats.cr == 0 {
      NoReturns(text);
      return Cleaned(false, None, warned);
    }
    if dry {
      return Cleaned(true, None, warned);
    }
    var dst := DropReturns(text, Guessing(action));
    r := Cleaned(true, Some(dst), warned);
  }

  /** Attribute by attribute: what is checked in, and what is complained about. */
  lemma InPerAttribute(s: string, settings: Settings, returnInIndex: bool)
    ensures CheckedIn(s, CrlfBinary, settings, returnInIndex) == s && !Reported(s, CrlfBinary, settings, returnInIndex)
    ensures settings.autoCrlf == AutoFalse ==>
      CheckedIn(s, CrlfGuess, settings, returnInIndex) == s && !Reported(s, CrlfGuess, settings, returnInIndex)
    ensures forall action :: action in {CrlfText, CrlfInput, CrlfCrlf} ==>
      CheckedIn(s, action, settings, returnInIndex) == FromCrlf(s)
    ensures Reported(s, CrlfInput, settings, returnInIndex) <==> Crlfs(s) > 0
    ensures Reported(s, CrlfCrlf, settings, returnInIndex) <==> Lfs(s) != Crlfs(s)
    ensures Reported(s, CrlfText, settings, returnInIndex) <==>
      if MeansCrlf(settings) then Lfs(s) != Crlfs(s) else Crlfs(s) > 0
  {
    NoneAtAll();
    assert FromCrlf("") == "";
    hide Crs, Lfs, Crlfs, FromCrlf, IsBinary, Stats;
  }

  /** check_safe_crlf on the numbers counted. */
  predicate Complaint(stats: TextStat, eol: Eol) {
    if eol == EolLf then stats.crlf > 0
    else eol == EolCrlf && stats.lf != stats.crlf
  }

  lemma NoneAtAll()
    ensures Crs("") == Lfs("") == Crlfs("") == 0 && !IsBinary(Stats(""))
  {}

  /** The loops of crlf_to_git: a guess has found no bare carriage return, so that all of them may go. */
  method DropReturns(src: string, guessed: bool) returns (dst: string)
    requires guessed ==> Crs(src) == Crlfs(src)
    ensures dst == FromCrlf(src)
  {
    if guessed {
      NoBareReturn(src);
    }
    hide FromCrlf, Crs, Lfs, Crlfs;
    dst := "";
    var i := 0;
    assert src[0..] == src && "" + FromCrlf(src) == FromCrlf(src) && FromCrlf("") == "" by { FromCrlfEmpty(); }
    while i < |src|
      invariant 0 <= i <= |src| && dst + FromCrlf(src[i..]) == FromCrlf(src)
    {
      var c := src[i];
      FromCrlfStep(src, i, dst);
      if !(c == '\r' && (guessed || (i + 1 < |src| && src[i + 1] == '\n'))) {
        dst := dst + [c];
      }
      i := i + 1;
    }
    assert src[i..] == "" && dst + "" == dst;
  }

  /** A line feed follows each carriage return. */
  predicate NoBare(s: string) {
    forall i :: 0 <= i < |s| && s[i] == '\r' ==> i + 1 < |s| && s[i + 1] == '\n'
  }

  /** No more CRLFs than carriage returns; as many exactly if a line feed follows each of them. */
  lemma {:induction false} BareReturns(s: string)
    ensures Crlfs(s) + (if s != "" && s[|s| - 1] == '\r' then 1 else 0) <= Crs(s)
    ensures Crlfs(s) + (if s != "" && s[|s| - 1] == '\r' then 1 else 0) == Crs(s) <==>
      forall i :: 0 <= i < |s| - 1 && s[i] == '\r' ==> s[i + 1] == '\n'
  {
    if s != "" {
      var n := |s| - 1;
      var t := s[..n];
      BareReturns(t);
      forall i | 0 <= i < n ensures s[i] == t[i] {}
      assert n > 0 && s[n - 1] == '\r' && s[n] != '\n' ==>
        !(forall i :: 0 <= i < |s| - 1 && s[i] == '\r' ==> s[i + 1] == '\n');
      hide Crs, Crlfs;
      CountLast(s);
    }
  }

  lemma CountLast(s: string)
    requires s != ""
    ensures Crs(s) == Crs(s[..|s| - 1]) + if s[|s| - 1] == '\r' then 1 else 0
    ensures Lfs(s) == Lfs(s[..|s| - 1]) + if s[|s| - 1] == '\n' then 1 else 0
    ensures Crlfs(s) ==
            Crlfs(s[..|s| - 1]) + if |s| > 1 && s[|s| - 2] == '\r' && s[|s| - 1] == '\n' then 1 else 0
  {}

  lemma CrlfsInCrs(s: string)
    ensures Crlfs(s) <= Crs(s)
  {
    BareReturns(s);
  }

  lemma NoBareReturn(s: string)
    ensures Crs(s) == Crlfs(s) <==> NoBare(s)
  {
    BareReturns(s);
    hide Crs, Crlfs;
    if s != "" && s[|s| - 1] != '\r' {
      forall i | 0 <= i < |s| && s[i] == '\r' ensures i < |s| - 1 {}
    }
  }

  lemma FromCrlfEmpty()
    ensures FromCrlf("") == ""
  {
  }

  lemma FromCrlfStep(src: string, i: nat, dst: string)
    requires i < |src|
    ensures dst + FromCrlf(src[i..]) ==
            (if src[i] == '\r' && i + 1 < |src| && src[i + 1] == '\n' then dst else dst + [src[i]]) +
              FromCrlf(src[i + 1..])
  {
    assert src[i..][1..] == src[i + 1..];
  }

  lemma {:induction false} NoReturns(s: string)
    requires Crs(s) == 0
    ensures FromCrlf(s) == s
  {
    CrsCount(s);
    Unchanged(s);
  }

  lemma {:induction false} CrsCount(s: string)
    ensures Crs(s) == 0 <==> '\r' !in s
  {
    if s != "" {
      CrsCount(s[..|s| - 1]);
      assert s == s[..|s| - 1] + [s[|s| - 1]];
    }
  }

  lemma {:induction false} Unchanged(s: string)
    requires '\r' !in s
    ensures FromCrlf(s) == s
  {
    if s != "" {
      Unchanged(s[1..]);
      assert s == [s[0]] + s[1..];
    }
  }

  /** Converting to the working tree and back is the same as converting to the repository right away. */
  lemma {:induction false} ThereAndBack(s: string)
    ensures FromCrlf(ToCrlf(s, false)) == FromCrlf(s)
    ensures s != "" && s[0] == '\n' ==> FromCrlf(ToCrlf(s, true)) == FromCrlf(s)
  {
    if s != "" {
      ThereAndBack(s[1..]);
      var t := ToCrlf(s[1..], s[0] == '\r');
      if s[0] == '\n' {
        assert (['\r', '\n'] + t)[1..] == ['\n'] + t && (['\n'] + t)[1..] == t;
        assert ([s[0]] + t)[1..] == t;
      } else {
        assert ([s[0]] + t)[1..] == t;
        assert s[0] == '\r' && s[1..] != "" ==> t != "" && t[0] == if s[1] == '\n' then '\n' else s[1];
      }
    }
  }
}
