/** convert.c: when a text that is checked in and out again is the same, and when that is noticed. */
module SafeCrlf {
  import opened LineEndings

  // ---- What conversion leaves alone ---------------------------------------------------------

  /** Dropping returns leaves all other characters, and what stands at the end. */
  lemma {:induction false} FromCrlfKeeps(s: string, kind: char -> bool)
    requires !kind('\r')
    ensures Amount(FromCrlf(s), kind) == Amount(s, kind)
    ensures s != "" ==> FromCrlf(s) != "" && FromCrlf(s)[|FromCrlf(s)| - 1] == s[|s| - 1]
  {
    if s != "" {
      var t := FromCrlf(s[1..]);
      FromCrlfKeeps(s[1..], kind);
      assert s == [s[0]] + s[1..];
      AmountFirst(s[0], s[1..], kind);
      AmountFirst(s[0], t, kind);
      assert "" + t == t;
    }
  }

  lemma {:induction false} ToCrlfKeeps(s: string, wasCr: bool, kind: char -> bool)
    requires !kind('\r')
    ensures Amount(ToCrlf(s, wasCr), kind) == Amount(s, kind)
    ensures s != "" ==> ToCrlf(s, wasCr) != "" && ToCrlf(s, wasCr)[|ToCrlf(s, wasCr)| - 1] == s[|s| - 1]
  {
    if s != "" {
      var bare := s[0] == '\n' && !wasCr;
      var t := ToCrlf(s[1..], if bare then false else s[0] == '\r');
      ToCrlfKeeps(s[1..], if bare then false else s[0] == '\r', kind);
      assert s == [s[0]] + s[1..];
      assert ToCrlf(s, wasCr) == if bare then ['\r', '\n'] + t else [s[0]] + t;
      hide Amount, ToCrlf;
      AmountFirst(s[0], s[1..], kind);
      AmountFirst(s[0], t, kind);
      if bare {
        AmountFirst('\r', [s[0]] + t, kind);
        assert ['\r', '\n'] + t == ['\r'] + ([s[0]] + t);
      }
    }
  }

  /** A text is as binary before a conversion as after it. */
  lemma AsBinary(s: string)
    ensures IsBinary(Stats(FromCrlf(s))) == IsBinary(Stats(s)) == IsBinary(Stats(ToCrlf(s, false)))
  {
    FromCrlfKeeps(s, IsNul);
    FromCrlfKeeps(s, IsPrintable);
    FromCrlfKeeps(s, IsNonprintable);
    ToCrlfKeeps(s, false, IsNul);
    ToCrlfKeeps(s, false, IsPrintable);
    ToCrlfKeeps(s, false, IsNonprintable);
    hide FromCrlf, ToCrlf, Amount;
    assert s == "" ==> FromCrlf(s) == "" == ToCrlf(s, false) by { NothingToConvert(); }
  }

  lemma NothingToConvert()
    ensures FromCrlf("") == "" && ToCrlf("", false) == ""
  {}

  // ---- Returns after a conversion -----------------------------------------------------------

  lemma {:induction false} NoneLeft(s: string)
    requires NoBare(s)
    ensures '\r' !in FromCrlf(s)
  {
    if s != "" {
      forall i | 0 <= i < |s[1..]| && s[1..][i] == '\r' ensures i + 1 < |s[1..]| && s[1..][i + 1] == '\n' {
        assert s[i + 1] == '\r';
      }
      NoneLeft(s[1..]);
    }
  }

  // ---- There and back -----------------------------------------------------------------------

  /** A line feed with two carriage returns in front of it. */
  predicate DoubledReturn(s: string) {
    exists i :: 0 <= i < |s| - 2 && s[i] == '\r' && s[i + 1] == '\r' && s[i + 2] == '\n'
  }

  /** A carriage return in front of each line feed. */
  predicate AllCovered(s: string) {
    forall i :: 0 <= i < |s| && s[i] == '\n' ==> i > 0 && s[i - 1] == '\r'
  }

  predicate StartsCrlf(s: string) {
    |s| > 1 && s[0] == '\r' && s[1] == '\n'
  }

  lemma CoveredNext(s: string)
    requires s != ""
    ensures StartsCrlf(s) ==> (AllCovered(s) <==> AllCovered(s[2..]))
    ensures !StartsCrlf(s) && s[0] != '\n' ==> (AllCovered(s) <==> AllCovered(s[1..]))
    ensures s[0] == '\n' ==> !AllCovered(s)
  {
    var k := if StartsCrlf(s) then 2 else 1;
    if s[0] != '\n' {
      if AllCovered(s[k..]) {
        forall i | 0 <= i < |s| && s[i] == '\n' ensures i > 0 && s[i - 1] == '\r' {
          if i >= k {
            assert s[k..][i - k] == '\n';
          }
        }
      }
      if AllCovered(s) {
        forall i | 0 <= i < |s[k..]| && s[k..][i] == '\n' ensures i > 0 && s[k..][i - 1] == '\r' {
          assert s[i + k] == '\n';
        }
      }
    }
  }

  lemma DoubledNext(s: string)
    requires s != ""
    ensures DoubledReturn(s) <==> DoubledReturn(s[1..]) || (s[0] == '\r' && StartsCrlf(s[1..]))
    ensures StartsCrlf(s) ==> (DoubledReturn(s) <==> DoubledReturn(s[2..]))
  {
    DoubledAfter(s);
    if |s| > 1 {
      DoubledAfter(s[1..]);
      assert s[1..][1..] == s[2..];
    }
  }

  lemma DoubledAfter(s: string)
    requires s != ""
    ensures DoubledReturn(s) <==> DoubledReturn(s[1..]) || (s[0] == '\r' && StartsCrlf(s[1..]))
  {
    if DoubledReturn(s) {
      var i :| 0 <= i < |s| - 2 && s[i] == '\r' && s[i + 1] == '\r' && s[i + 2] == '\n';
      if i > 0 {
        assert s[1..][i - 1] == '\r' && s[1..][i] == '\r' && s[1..][i + 1] == '\n';
      }
    }
    if DoubledReturn(s[1..]) {
      var i :| 0 <= i < |s[1..]| - 2 && s[1..][i] == '\r' && s[1..][i + 1] == '\r' && s[1..][i + 2] == '\n';
      assert s[i + 1] == '\r' && s[i + 2] == '\r' && s[i + 3] == '\n';
    }
  }

  /** Dropping the returns and adding them again restores the text; `wasCr` tells what was kept before it. */
  lemma {:induction false} RestoredIff(s: string, wasCr: bool)
    requires wasCr && s != "" ==> s[0] != '\n'
    ensures ToCrlf(FromCrlf(s), wasCr) == s <==>
      AllCovered(s) && !DoubledReturn(s) && !(wasCr && StartsCrlf(s))
  {
    if s != "" {
      CoveredNext(s);
      DoubledNext(s);
      if StartsCrlf(s) {
        RestoredIff(s[2..], false);
      } else if s[0] != '\n' {
        RestoredIff(s[1..], s[0] == '\r');
      }
      hide AllCovered, DoubledReturn;
      Rebuilt(s, wasCr);
    }
  }

  /** The first characters dropped and added again. */
  lemma Rebuilt(s: string, wasCr: bool)
    requires s != ""
    ensures StartsCrlf(s) && !wasCr ==> (ToCrlf(FromCrlf(s), wasCr) == s <==> ToCrlf(FromCrlf(s[2..]), false) == s[2..])
    ensures StartsCrlf(s) && wasCr ==> ToCrlf(FromCrlf(s), wasCr) != s
    ensures s[0] == '\n' && !wasCr ==> ToCrlf(FromCrlf(s), wasCr) != s
    ensures !StartsCrlf(s) && s[0] != '\n' ==>
      (ToCrlf(FromCrlf(s), wasCr) == s <==> ToCrlf(FromCrlf(s[1..]), s[0] == '\r') == s[1..])
  {
    if StartsCrlf(s) {
      var t := FromCrlf(s[2..]);
      assert s[1..][1..] == s[2..] && s[1..][0] == '\n';
      assert FromCrlf(s) == ['\n'] + t by {
        assert FromCrlf(s) == "" + FromCrlf(s[1..]);
        assert FromCrlf(s[1..]) == ['\n'] + t;
      }
      FirstLineFeed(t, wasCr);
      assert s == ['\r', '\n'] + s[2..];
    } else {
      var t := FromCrlf(s[1..]);
      assert FromCrlf(s) == [s[0]] + t && s == [s[0]] + s[1..];
      if s[0] == '\n' {
        FirstLineFeed(t, wasCr);
      } else {
        FirstOther(s[0], t, wasCr);
      }
    }
  }

  lemma FirstLineFeed(t: string, wasCr: bool)
    ensures ToCrlf(['\n'] + t, wasCr) == (if wasCr then ['\n'] else ['\r', '\n']) + ToCrlf(t, false)
  {
    assert (['\n'] + t)[1..] == t;
  }

  lemma FirstOther(c: char, t: string, wasCr: bool)
    requires c != '\n'
    ensures ToCrlf([c] + t, wasCr) == [c] + ToCrlf(t, c == '\r')
  {
    assert ([c] + t)[1..] == t;
  }

  /** All line feeds are covered exactly if they are as many as the CRLFs. */
  lemma {:induction false} CoveredIff(s: string)
    ensures Crlfs(s) <= Lfs(s) && (Lfs(s) == Crlfs(s) <==> AllCovered(s))
  {
    if s != "" {
      var n := |s| - 1;
      CoveredIff(s[..n]);
      CountLast(s);
      hide Lfs, Crlfs;
      forall i | 0 <= i < n ensures s[i] == s[..n][i] {}
    }
  }

  /** Dropping returns takes out one character for each CRLF. */
  lemma {:induction false} FromCrlfSame(s: string)
    ensures Crlfs(s) == 0 <==> FromCrlf(s) == s
  {
    NoCrlf(s);
    Dropped(s);
  }

  predicate HasCrlf(s: string) {
    exists i :: 0 < i < |s| && s[i - 1] == '\r' && s[i] == '\n'
  }

  lemma {:induction false} NoCrlf(s: string)
    ensures Crlfs(s) == 0 <==> !HasCrlf(s)
  {
    if s != "" {
      var n := |s| - 1;
      NoCrlf(s[..n]);
      CountLast(s);
      hide Crlfs;
      if HasCrlf(s) && !(n > 0 && s[n - 1] == '\r' && s[n] == '\n') {
        var i :| 0 < i < |s| && s[i - 1] == '\r' && s[i] == '\n';
        assert s[..n][i - 1] == '\r' && s[..n][i] == '\n';
      }
      if HasCrlf(s[..n]) {
        var i :| 0 < i < n && s[..n][i - 1] == '\r' && s[..n][i] == '\n';
        assert s[i - 1] == '\r' && s[i] == '\n';
      }
    }
  }

  lemma {:induction false} Dropped(s: string)
    ensures |FromCrlf(s)| <= |s|
    ensures HasCrlf(s) ==> |FromCrlf(s)| < |s|
    ensures !HasCrlf(s) ==> FromCrlf(s) == s
  {
    if s != "" {
      Dropped(s[1..]);
      assert s == [s[0]] + s[1..];
      if HasCrlf(s) && !StartsCrlf(s) {
        var i :| 0 < i < |s| && s[i - 1] == '\r' && s[i] == '\n';
        assert s[1..][i - 2] == '\r' && s[1..][i - 1] == '\n';
      }
      if HasCrlf(s[1..]) {
        var i :| 0 < i < |s[1..]| && s[1..][i - 1] == '\r' && s[1..][i] == '\n';
        assert s[i] == '\r' && s[i + 1] == '\n';
      }
      if StartsCrlf(s) {
        assert s[1] == '\n';
      }
    }
  }

  // ---- What the check notices ---------------------------------------------------------------

  /** A text without carriage returns whose old version has one: it is checked in as it is and not checked. */
  predicate OldReturns(s: string, action: CrlfAction, settings: Settings, returnInIndex: bool) {
    && action == CrlfGuess && returnInIndex && OutputEol(settings, action) == EolCrlf
    && Crs(s) == 0 && Lfs(s) > 0 && !IsBinary(Stats(s))
  }

  /** All line feeds are covered, but some doubly. */
  predicate TwiceCovered(s: string, action: CrlfAction, settings: Settings) {
    && !Guessing(action) && OutputEol(settings, action) == EolCrlf
    && Lfs(s) == Crlfs(s) && DoubledReturn(s)
  }

  /**
   * A text checked in and out again is as it was exactly if the check does not complain, it has no
   * doubled return that is not guessed about, and no old version with returns keeps it from the check.
   */
  lemma CheckIsExact(s: string, action: CrlfAction, settings: Settings, returnInIndex: bool)
    ensures CheckedOut(CheckedIn(s, action, settings, returnInIndex), action, settings) == s <==>
      && !Reported(s, action, settings, returnInIndex)
      && !OldReturns(s, action, settings, returnInIndex)
      && !TwiceCovered(s, action, settings)
  {
    hide Crs, Lfs, Crlfs, FromCrlf, ToCrlf, IsBinary, Stats, DoubledReturn;
    NothingAtAll();
    CrlfsInCrs(s);
    if LeftAlone(s, action, settings, returnInIndex) {
      OutAgain(s, action, settings, returnInIndex);
    } else if OutputEol(settings, action) == EolLf {
      FromCrlfSame(s);
    } else {
      InAndOut(s, action, settings);
    }
  }

  lemma NothingAtAll()
    ensures Crs("") == Lfs("") == Crlfs("") == 0 && !DoubledReturn("") && ToCrlf("", false) == ""
  {}

  /** A text that is checked in as it is. */
  lemma OutAgain(s: string, action: CrlfAction, settings: Settings, returnInIndex: bool)
    requires LeftAlone(s, action, settings, returnInIndex)
    ensures CheckedOut(s, action, settings) == s <==> !OldReturns(s, action, settings, returnInIndex)
    ensures !TwiceCovered(s, action, settings)
  {
    hide Crs, Lfs, Crlfs, FromCrlf, ToCrlf, IsBinary, Stats, DoubledReturn;
    NothingAtAll();
    CrlfsInCrs(s);
    AlreadyCrlf(s);
    LongerIfChanged(s);
  }

  /** A text that is converted both ways. */
  lemma InAndOut(s: string, action: CrlfAction, settings: Settings)
    requires OutputEol(settings, action) == EolCrlf && (Guessing(action) ==> LooksLikeText(s))
    ensures CheckedOut(FromCrlf(s), action, settings) == s <==>
      Lfs(s) == Crlfs(s) && !TwiceCovered(s, action, settings)
  {
    hide Crs, Lfs, Crlfs, FromCrlf, ToCrlf, IsBinary, Stats, DoubledReturn;
    RestoredIff(s, false);
    CoveredIff(s);
    if Guessing(action) {
      AsBinary(s);
      NoBareReturn(s);
      NoneLeft(s);
      NoneCounted(FromCrlf(s));
      NotDoubled(s);
    }
  }

  lemma NoneCounted(s: string)
    requires '\r' !in s
    ensures Crs(s) == 0 == Crlfs(s)
  {
    CrsCount(s);
    CrlfsInCrs(s);
  }

  lemma NotDoubled(s: string)
    requires NoBare(s)
    ensures !DoubledReturn(s)
  {}

  /** A doubled return is lost without notice. */
  lemma ReturnLost(returnInIndex: bool)
    ensures var s, settings := "\r\r\n", Settings(AutoTrue, EolUnset, false);
      && !Reported(s, CrlfText, settings, returnInIndex)
      && CheckedOut(CheckedIn(s, CrlfText, settings, returnInIndex), CrlfText, settings) == "\r\n"
  {
    var s, settings := "\r\r\n", Settings(AutoTrue, EolUnset, false);
    CountLast(s);
    CountLast("\r\r");
    CountLast("\r");
    assert s[..2] == "\r\r" && "\r\r"[..1] == "\r" && "\r"[..0] == "";
    NoneAtAll();
    assert s[1..] == "\r\n" && "\r\n"[1..] == "\n" && "\n"[1..] == "";
    assert FromCrlf(s) == ['\r'] + (("" + (['\n'] + "")));
    assert FromCrlf(s) == "\r\n";
    FirstOther('\r', "\n", false);
    LineFeedAlone();
    assert ['\r'] + "\n" == "\r\n";
  }

  /** A line feed added where a return used to be comes back with a return, without notice. */
  lemma ReturnGained()
    ensures var s, settings := "a\n", Settings(AutoTrue, EolUnset, false);
      && !Reported(s, CrlfGuess, settings, true)
      && CheckedOut(CheckedIn(s, CrlfGuess, settings, true), CrlfGuess, settings) == "a\r\n"
  {
    var s, settings := "a\n", Settings(AutoTrue, EolUnset, false);
    NoneCounted(s);
    assert s[..1] == "a" && "a"[..0] == "" && s[1..] == "\n" && "\n"[1..] == "";
    assert Amount("a", IsNul) == Amount("a", IsNonprintable) == 0;
    assert Amount(s, IsNul) == Amount(s, IsNonprintable) == 0;
    assert !IsBinary(Stats(s));
    FirstOther('a', "\n", false);
    LineFeedAlone();
    assert ['a'] + "\n" == s && ['a'] + "\r\n" == "a\r\n";
  }

  // ---- Out and in again ---------------------------------------------------------------------

  /**
   * A guess never changes what has been checked in: checked out and in again it is the same, whatever
   * the settings.
   */
  lemma GuessIsSafe(s: string, settings: Settings)
    ensures CheckedIn(CheckedOut(s, CrlfGuess, settings), CrlfGuess, settings, Crs(s) > 0) == s
  {
    hide Crs, Lfs, Crlfs, FromCrlf, ToCrlf, IsBinary, Stats;
    CrlfsInCrs(s);
    var t := CheckedOut(s, CrlfGuess, settings);
    if Crs(s) == 0 {
      NoReturns(s);
      if t != s {
        ThereAndBack(s);
        AsBinary(s);
        StillNoBare(s);
        ToCrlfEmpty(s);
        NothingToConvert();
      }
    }
  }

  /** In all other cases checking out and in again is the same as checking in right away. */
  lemma OutAndIn(s: string, action: CrlfAction, settings: Settings, returnInIndex: bool)
    requires action != CrlfGuess
    ensures var t := CheckedOut(s, action, settings);
      CheckedIn(t, action, settings, returnInIndex) == CheckedIn(s, action, settings, returnInIndex)
  {
    hide Crs, Lfs, Crlfs, FromCrlf, ToCrlf, IsBinary, Stats;
    NothingToConvert();
    ThereAndBack(s);
    if CheckedOut(s, action, settings) != s {
      ToCrlfEmpty(s);
      if Guessing(action) {
        AsBinary(s);
        StillNoBare(s);
      }
    }
  }

  lemma ToCrlfEmpty(s: string)
    ensures ToCrlf(s, false) == "" <==> s == ""
  {
    ToCrlfKeeps(s, false, IsNul);
    NothingToConvert();
  }

  lemma StillNoBare(s: string)
    requires Crs(s) == Crlfs(s)
    ensures Crs(ToCrlf(s, false)) == Crlfs(ToCrlf(s, false))
  {
    NoBareReturn(s);
    NoBareReturn(ToCrlf(s, false));
    StaysCovered(s, false);
  }

  lemma {:induction false} StaysCovered(s: string, wasCr: bool)
    requires NoBare(s)
    ensures NoBare(ToCrlf(s, wasCr))
  {
    if s != "" {
      var bare := s[0] == '\n' && !wasCr;
      var t, u := ToCrlf(s[1..], if bare then false else s[0] == '\r'), ToCrlf(s, wasCr);
      forall i | 0 <= i < |s[1..]| && s[1..][i] == '\r' ensures i + 1 < |s[1..]| && s[1..][i + 1] == '\n' {
        assert s[i + 1] == '\r';
      }
      StaysCovered(s[1..], if bare then false else s[0] == '\r');
      if s[0] == '\r' {
        assert s[1] == '\n' && s[1..][0] == '\n';
        assert t[0] == '\n';
      }
      var k := if bare then 2 else 1;
      forall i | 0 <= i < |u| && u[i] == '\r' ensures i + 1 < |u| && u[i + 1] == '\n' {
        if i >= k {
          assert u[i] == t[i - k];
          assert u[i + 1] == t[i - k + 1];
        }
      }
    }
  }
}
