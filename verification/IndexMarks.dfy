/** What marks on index entries do to tree objects and counts, and what removing the marked entries keeps. */
module IndexMarks {
  import opened Basics
  import opened CacheIndex
  import opened CachedTree
  import opened CacheUpdate

  // ---- Subsequences -------------------------------------------------------------------------

  ghost function Kept(E: seq<Entry>): seq<Entry> {
    if E == [] then [] else (if E[0].mark.Removed? then [] else [E[0]]) + Kept(E[1..])
  }

  /** The entries a tree is to be made of. */
  ghost function Visible(E: seq<Entry>): seq<Entry> {
    if E == [] then [] else (if E[0].mark.Live? then [E[0]] else []) + Visible(E[1..])
  }

  lemma {:induction false} VisibleConcat(A: seq<Entry>, B: seq<Entry>)
    ensures Visible(A + B) == Visible(A) + Visible(B)
  {
    if A == [] {
      assert A + B == B;
    } else {
      assert (A + B)[1..] == A[1..] + B && (A + B)[0] == A[0];
      VisibleConcat(A[1..], B);
      Assoc(if A[0].mark.Live? then [A[0]] else [], Visible(A[1..]), Visible(B));
    }
  }

  lemma {:induction false} VisibleIn(E: seq<Entry>)
    ensures forall e :: e in Visible(E) <==> e in E && e.mark.Live?
    ensures |Visible(E)| <= |E|
  {
    if E != [] {
      VisibleIn(E[1..]);
      assert E == [E[0]] + E[1..];
    }
  }

  lemma {:induction false} KeptIn(E: seq<Entry>)
    ensures forall e :: e in Kept(E) <==> e in E && !e.mark.Removed?
    ensures |Kept(E)| + RemovedIn(E) == |E|
  {
    if E != [] {
      KeptIn(E[1..]);
      assert E == [E[0]] + E[1..];
    }
  }

  lemma {:induction false} KeptIsVisible(E: seq<Entry>)
    requires forall e :: e in E ==> !e.mark.Intended?
    ensures Kept(E) == Visible(E)
  {
    if E != [] {
      assert E[0] in E;
      KeptIsVisible(E[1..]);
    }
  }

  lemma {:induction false} UnderKept(E: seq<Entry>, base: string)
    ensures Under(Kept(E), base) == Kept(Under(E, base))
  {
    hide In;
    if E != [] {
      UnderKept(E[1..], base);
      var first := if E[0].mark.Removed? then [] else [E[0]];
      UnderConcat(first, Kept(E[1..]), base);
      UnderOne(E[0], base);
      if In(E[0], base) {
        assert ([E[0]] + Under(E[1..], base))[1..] == Under(E[1..], base);
      } else {
        assert [] + Under(E[1..], base) == Under(E[1..], base);
      }
    }
  }

  lemma UnderOne(e: Entry, base: string)
    ensures Under([e], base) == (if In(e, base) then [e] else []) && Under([], base) == []
  {
    assert [e][1..] == [];
  }

  ghost function RemovedIn(E: seq<Entry>): nat {
    if E == [] then 0 else One(E[0]) + RemovedIn(E[1..])
  }

  lemma {:induction false} RemovedConcat(E: seq<Entry>, k: nat)
    requires k <= |E|
    ensures RemovedIn(E) == RemovedIn(E[..k]) + RemovedIn(E[k..])
  {
    if k > 0 {
      RemovedConcat(E[1..], k - 1);
      assert E[1..][..k - 1] == E[..k][1..] && E[1..][k - 1..] == E[k..];
    } else {
      assert E[0..] == E && E[..0] == [];
    }
  }

  // ---- What is skipped ----------------------------------------------------------------------

  /** No subdirectory on any level begins with an entry marked for removal. */
  ghost predicate StartsWell(E: seq<Entry>, n: nat)
    requires Level(E, n)
    decreases |E|, if E == [] then 0 else |E[0].name| - n
  {
    if E == [] then true
    else if !IsDir(E[0], n) then StartsWell(E[1..], n)
    else
      var below := Front(E[0], n);
      var k := Run(E, below);
      FrontRuns(E, n);
      !E[0].mark.Removed? && StartsWell(E[..k], |below|) && StartsWell(E[k..], n)
  }

  /**
   * update_one counts each entry marked for removal as skipped, and besides once for each level whose
   * directory begins with it: the number is right exactly if no subdirectory begins with such an entry.
   */
  lemma {:induction false} SkipsExact(E: seq<Entry>, n: nat)
    requires Level(E, n)
    ensures Inner(E, n) + Outer(E, n) >= RemovedIn(E)
    ensures Inner(E, n) + Outer(E, n) == RemovedIn(E) <==> StartsWell(E, n)
    decreases |E|, if E == [] then 0 else |E[0].name| - n
  {
    if E != [] {
      if !IsDir(E[0], n) {
        SkipsExact(E[1..], n);
      } else {
        var below := Front(E[0], n);
        var k := Run(E, below);
        FrontRuns(E, n);
        SkipsExact(E[..k], |below|);
        SkipsExact(E[k..], n);
        RemovedConcat(E, k);
        StartsWellSplit(E, n);
        SkipsSplit(E, n);
        hide *;
      }
    }
  }

  lemma StartsWellSplit(E: seq<Entry>, n: nat)
    requires Level(E, n) && E != [] && IsDir(E[0], n)
    ensures var below := Front(E[0], n); var k := Run(E, below);
      && k > 0 && Level(E[..k], |below|) && Level(E[k..], n)
      && (StartsWell(E, n) <==> One(E[0]) == 0 && StartsWell(E[..k], |below|) && StartsWell(E[k..], n))
  {
    FrontRuns(E, n);
    hide Run, Front, IsDir, Level;
  }

  lemma SkipsSplit(E: seq<Entry>, n: nat)
    requires Level(E, n) && E != [] && IsDir(E[0], n)
    ensures var below := Front(E[0], n); var k := Run(E, below);
      && Level(E[..k], |below|) && Level(E[k..], n)
      && Inner(E, n) == Inner(E[..k], |below|) + Outer(E[..k], |below|) + Inner(E[k..], n)
      && Outer(E, n) == One(E[0]) + Outer(E[k..], n)
  {
    FrontRuns(E, n);
    hide Run, Front, IsDir, Level;
  }

  /** From every directory on, no subdirectory begins with an entry marked for removal. */
  ghost predicate AllStartWell(E: seq<Entry>, base: string)
    requires WellNamed(E)
  {
    forall p {:trigger Under(E, p)} :: base <= p ==> WellBelow(E, p)
  }

  ghost predicate WellBelow(E: seq<Entry>, p: string)
    requires WellNamed(E)
  {
    UnderIn(E, p);
    StartsWell(Under(E, p), |p|)
  }

  lemma WellCounted(E: seq<Entry>, p: string)
    requires WellNamed(E) && WellBelow(E, p)
    ensures Skips(E, p) == RemovedIn(Under(E, p)) <= |Under(E, p)|
  {
    UnderIn(E, p);
    SkipsExact(Under(E, p), |p|);
    KeptIn(Under(E, p));
  }

  /** Then what is sure does not depend on marks for removal. */
  lemma StartsWellCounted(E: seq<Entry>, base: string)
    requires WellNamed(E) && AllStartWell(E, base)
    ensures Counted(E, base)
  {
    forall p | base <= p ensures Skips(E, p) <= |Under(E, p)| {
      assert Under(E, p) == Under(E, p);
      WellCounted(E, p);
    }
  }

  lemma OneFile(e: Entry, n: nat)
    requires Level([e], n) && !IsDir(e, n)
    ensures Inner([e], n) == 0 && Outer([e], n) == One(e) && RemovedIn([e]) == One(e)
  {
    assert [e][1..] == [];
    hide IsDir;
  }

  lemma FileInDirectory(x: Entry, b: Entry)
    requires x.name == "a/x" && b.name == "b"
    ensures IsDir(x, 0) && Front(x, 0) == "a/" && !IsDir(x, 2) && !IsDir(b, 0)
    ensures Less(x.name, b.name) && Run([x, b], "a/") == 1
  {
    assert Slash("a/x", 0) == 1 && Slash("a/x", 2) == 3 && Slash("b", 0) == 1;
    assert "a/x"[..2] == "a/" && "a/" <= "a/x";
    assert [x, b][1..] == [b] && Run([b], "a/") == 0;
    assert In(x, "a/");
  }

  /** One removed entry, alone in a directory, is counted twice. */
  lemma CountedTwice(sha1: Sha)
    ensures var E := [Entry("a/x", 0, sha1, 0, Removed), Entry("b", 0, sha1, 0, Live)];
      Sorted(E) && Level(E, 0) && RemovedIn(E) == 1 && Inner(E, 0) + Outer(E, 0) == 2
  {
    var x, b := Entry("a/x", 0, sha1, 0, Removed), Entry("b", 0, sha1, 0, Live);
    var E := [x, b];
    FileInDirectory(x, b);
    hide Less, Slash, IsDir, Front, Run;
    assert E[..1] == [x] && E[1..] == [b];
    SkipsSplit(E, 0);
    OneFile(x, 2);
    OneFile(b, 0);
    RemovedConcat(E, 1);
  }

  // ---- What is shown ------------------------------------------------------------------------

  /** Every subdirectory on every level that has a live entry begins with one. */
  ghost predicate ShowsWell(E: seq<Entry>, n: nat)
    requires Level(E, n)
    decreases |E|, if E == [] then 0 else |E[0].name| - n
  {
    if E == [] then true
    else if !IsDir(E[0], n) then ShowsWell(E[1..], n)
    else
      var below := Front(E[0], n);
      var k := Run(E, below);
      FrontRuns(E, n);
      (E[0].mark.Live? || Visible(E[..k]) == []) && ShowsWell(E[..k], |below|) && ShowsWell(E[k..], n)
  }

  lemma ShowsWellSplit(E: seq<Entry>, n: nat)
    requires Level(E, n) && E != [] && IsDir(E[0], n)
    ensures var below := Front(E[0], n); var k := Run(E, below);
      && k > 0 && Level(E[..k], |below|) && Level(E[k..], n)
      && (ShowsWell(E, n) <==>
            (E[0].mark.Live? || Visible(E[..k]) == []) && ShowsWell(E[..k], |below|) && ShowsWell(E[k..], n))
  {
    FrontRuns(E, n);
    hide Run, Front, IsDir, Level;
  }

  lemma VisibleSplit(E: seq<Entry>, k: nat)
    requires k <= |E|
    ensures Visible(E) == Visible(E[..k]) + Visible(E[k..])
  {
    hide *;
    VisibleConcat(E[..k], E[k..]);
    assert E[..k] + E[k..] == E;
  }

  lemma VisibleLevel(E: seq<Entry>, n: nat)
    requires Level(E, n)
    ensures Level(Visible(E), n)
  {
    VisibleIn(E);
  }

  lemma FirstLeast(E: seq<Entry>)
    requires Sorted(E) && E != []
    ensures Proper(E[0].name) && forall e :: e in E[1..] ==> Less(E[0].name, e.name)
  {
    hide Less, Proper;
    assert E[0] in E;
    forall e | e in E[1..] ensures Less(E[0].name, e.name) {
      var j :| 0 <= j < |E[1..]| && E[1..][j] == e;
      assert E[j + 1] == e;
    }
  }

  lemma SortedMore(e: Entry, rest: seq<Entry>)
    requires Sorted(rest) && Proper(e.name) && forall x :: x in rest ==> Less(e.name, x.name)
    ensures Sorted([e] + rest)
  {
    hide Less, Proper;
    var all := [e] + rest;
    forall i, j {:trigger all[i], all[j]} | 0 <= i < j < |all| ensures Less(all[i].name, all[j].name) {
      assert all[j] == rest[j - 1] && rest[j - 1] in rest;
      if i > 0 {
        assert all[i] == rest[i - 1];
      }
    }
  }

  /** Among the live entries, those of the first subdirectory stand in front as well. */
  lemma VisibleRun(E: seq<Entry>, n: nat)
    requires Sorted(E) && Level(E, n) && E != [] && IsDir(E[0], n)
    ensures var below := Front(E[0], n); var k := Run(E, below);
      && Run(Visible(E), below) == |Visible(E[..k])|
      && Visible(E)[..|Visible(E[..k])|] == Visible(E[..k]) && Visible(E)[|Visible(E[..k])|..] == Visible(E[k..])
      && (Visible(E[..k]) != [] ==>
            && IsDir(Visible(E)[0], n) && Front(Visible(E)[0], n) == below
            && Component(Visible(E)[0], n) == Component(E[0], n))
  {
    var below := Front(E[0], n);
    var k := Run(E, below);
    FrontRuns(E, n);
    RunIsAll(E, below);
    VisibleSplit(E, k);
    VisibleIn(E[..k]);
    VisibleIn(E[k..]);
    RunOf(Visible(E[..k]), Visible(E[k..]), below);
    if Visible(E[..k]) != [] {
      var e := Visible(E)[0];
      assert e == Visible(E[..k])[0] && e in Visible(E[..k]) && e in E[..k];
      SameFront(E[0], e, n);
    }
  }

  lemma {:induction false} RunOf(A: seq<Entry>, B: seq<Entry>, below: string)
    requires AllIn(A, below) && NoneIn(B, below)
    ensures Run(A + B, below) == |A|
  {
    if A == [] {
      assert A + B == B;
    } else {
      assert (A + B)[1..] == A[1..] + B;
      RunOf(A[1..], B, below);
    }
  }

  lemma SameFront(a: Entry, e: Entry, n: nat)
    requires IsDir(a, n) && In(e, Front(a, n))
    ensures IsDir(e, n) && Front(e, n) == Front(a, n) && Component(e, n) == Component(a, n)
  {
    var s := Slash(a.name, n);
    assert forall j :: 0 <= j <= s ==> e.name[j] == Front(a, n)[j] == a.name[j];
    assert Slash(e.name, n) == s;
    assert e.name[..s + 1] == a.name[..s + 1];
    assert e.name[n..s] == e.name[..s + 1][n..s] && a.name[n..s] == a.name[..s + 1][n..s];
  }

  /**
   * If every subdirectory that has a live entry begins with one, the tree object made is that of the
   * live entries alone.
   */
  lemma {:induction false} LiveTree(hash: string -> Sha, E: seq<Entry>, n: nat)
    requires Sorted(E) && Level(E, n) && ShowsWell(E, n)
    ensures Level(Visible(E), n) && Buffer(hash, E, n) == Buffer(hash, Visible(E), n)
    decreases |E|, if E == [] then 0 else |E[0].name| - n
  {
    VisibleLevel(E, n);
    if E != [] {
      if !IsDir(E[0], n) {
        SortedTail(E, 1);
        LiveTree(hash, E[1..], n);
        LiveFile(hash, E, n);
      } else {
        var below := Front(E[0], n);
        var k := Run(E, below);
        ShowsWellSplit(E, n);
        FrontRuns(E, n);
        SortedTail(E, k);
        SortedFront(E, k);
        LiveTree(hash, E[..k], |below|);
        LiveTree(hash, E[k..], n);
        LiveDir(hash, E, n);
      }
    }
  }

  lemma SortedFront(E: seq<Entry>, k: nat)
    requires Sorted(E) && k <= |E|
    ensures Sorted(E[..k])
  {
    assert forall e :: e in E[..k] ==> e in E;
  }

  lemma LiveFile(hash: string -> Sha, E: seq<Entry>, n: nat)
    requires Level(E, n) && E != [] && !IsDir(E[0], n) && Level(E[1..], n)
    requires Level(Visible(E[1..]), n) && Buffer(hash, E[1..], n) == Buffer(hash, Visible(E[1..]), n)
    ensures Level(Visible(E), n) && Buffer(hash, E, n) == Buffer(hash, Visible(E), n)
  {
    VisibleLevel(E, n);
    if E[0].mark.Live? {
      assert Visible(E)[1..] == Visible(E[1..]) && Visible(E)[0] == E[0];
    } else {
      assert Visible(E) == Visible(E[1..]);
      Unit(Buffer(hash, E[1..], n));
    }
  }

  lemma LiveDir(hash: string -> Sha, E: seq<Entry>, n: nat)
    requires Sorted(E) && Level(E, n) && E != [] && IsDir(E[0], n)
    requires var below := Front(E[0], n); var k := Run(E, below);
      && Level(E[..k], |below|) && Level(E[k..], n) && (E[0].mark.Live? || Visible(E[..k]) == [])
      && Level(Visible(E[..k]), |below|) && Buffer(hash, E[..k], |below|) == Buffer(hash, Visible(E[..k]), |below|)
      && Level(Visible(E[k..]), n) && Buffer(hash, E[k..], n) == Buffer(hash, Visible(E[k..]), n)
    ensures Level(Visible(E), n) && Buffer(hash, E, n) == Buffer(hash, Visible(E), n)
  {
    VisibleLevel(E, n);
    var below := Front(E[0], n);
    var k := Run(E, below);
    FrontRuns(E, n);
    VisibleRun(E, n);
    BufferFirst(hash, E, n, below);
    VisibleIn(E[..k]);
    assert E[0] == E[..k][0];
    hide Buffer, Run, Front, Component, IsDir, Sorted, Line;
    if E[0].mark.Live? {
      assert E[0] in Visible(E[..k]);
      assert Visible(E)[0].mark.Live? by { VisibleIn(E); }
      BufferFirst(hash, Visible(E), n, below);
    } else {
      assert Visible(E) == Visible(E[k..]);
      Unit(Buffer(hash, E[k..], n));
    }
  }

  // ---- The lines of one level ---------------------------------------------------------------

  function LineOf(e: Entry): nat {
    if e.mark.Live? then 1 else 0
  }

  /** How many lines the tree object of a directory gets. */
  ghost function Lines(E: seq<Entry>, n: nat): nat
    requires Level(E, n)
    decreases |E|
  {
    if E == [] then 0
    else if !IsDir(E[0], n) then LineOf(E[0]) + Lines(E[1..], n)
    else
      FrontRuns(E, n);
      LineOf(E[0]) + Lines(E[Run(E, Front(E[0], n))..], n)
  }

  /** Every subdirectory directly on this level that has a live entry begins with one. */
  ghost predicate LevelShows(E: seq<Entry>, n: nat)
    requires Level(E, n)
    decreases |E|
  {
    if E == [] then true
    else if !IsDir(E[0], n) then LevelShows(E[1..], n)
    else
      var k := Run(E, Front(E[0], n));
      FrontRuns(E, n);
      (E[0].mark.Live? || Visible(E[..k]) == []) && LevelShows(E[k..], n)
  }

  /** A tree object never has more lines than its live entries need, and as many exactly if no directory is left out. */
  lemma {:induction false} LinesExact(E: seq<Entry>, n: nat)
    requires Sorted(E) && Level(E, n)
    ensures Level(Visible(E), n) && Lines(E, n) <= Lines(Visible(E), n)
    ensures Lines(E, n) == Lines(Visible(E), n) <==> LevelShows(E, n)
    decreases |E|
  {
    VisibleLevel(E, n);
    if E != [] {
      if !IsDir(E[0], n) {
        SortedTail(E, 1);
        LinesExact(E[1..], n);
        if E[0].mark.Live? {
          assert Visible(E)[1..] == Visible(E[1..]) && Visible(E)[0] == E[0];
        } else {
          assert Visible(E) == Visible(E[1..]);
        }
      } else {
        FrontRuns(E, n);
        var k := Run(E, Front(E[0], n));
        SortedTail(E, k);
        LinesExact(E[k..], n);
        VisibleLines(E, n);
        hide Run, Front, IsDir, Level, Sorted, Visible;
      }
    }
  }

  lemma VisibleLines(E: seq<Entry>, n: nat)
    requires Sorted(E) && Level(E, n) && E != [] && IsDir(E[0], n)
    ensures var k := Run(E, Front(E[0], n));
      && Level(E[k..], n) && Level(Visible(E), n) && Level(Visible(E[k..]), n)
      && (E[0].mark.Live? ==> Visible(E[..k]) != [])
      && Lines(Visible(E), n) == (if Visible(E[..k]) == [] then 0 else 1) + Lines(Visible(E[k..]), n)
  {
    FrontRuns(E, n);
    var k := Run(E, Front(E[0], n));
    VisibleLevel(E, n);
    VisibleLevel(E[k..], n);
    VisibleRun(E, n);
    VisibleIn(E[..k]);
    VisibleIn(E);
    assert E[0] == E[..k][0];
    if Visible(E[..k]) == [] {
      assert Visible(E) == Visible(E[k..]);
    } else {
      assert Visible(E)[0] in Visible(E);
    }
    hide Run, Front, IsDir, Level, Sorted, Visible;
  }

  lemma TwoNames()
    ensures Less("a/x", "a/y") && Slash("a/x", 0) == 1 && Slash("a/y", 0) == 1
    ensures "a/x"[..2] == "a/" && "a/y"[..2] == "a/" && "a/" <= "a/x" && "a/" <= "a/y"
  {
    assert "a/x"[1..] == "/x" && "a/y"[1..] == "/y" && "/x"[1..] == "x" && "/y"[1..] == "y";
    assert Less("x", "y") && Less("/x", "/y");
  }

  lemma TwoEntries(x: Entry, y: Entry)
    requires x.name == "a/x" && y.name == "a/y" && x.mark.Intended? && y.mark.Live?
    ensures var E := [x, y];
      && Sorted(E) && Level(E, 0) && Level([y], 0) && Visible(E) == [y] && Visible(E[..2]) == [y]
      && IsDir(x, 0) && IsDir(y, 0) && Front(x, 0) == "a/" == Front(y, 0) && Run(E, "a/") == 2 && Run([y], "a/") == 1
  {
    TwoNames();
    hide Less, Slash;
    var E := [x, y];
    assert In(x, "a/") && In(y, "a/");
    assert E[1..] == [y] && [y][1..] == [] && E[..2] == E;
    assert Run([], "a/") == 0 && Run([y], "a/") == 1;
    assert Visible([]) == [] && Visible([y]) == [y];
  }

  /** A directory whose first entry is an intent to add is left out, whatever else is in it. */
  lemma DirectoryLost(hash: string -> Sha, sha1: Sha)
    ensures var E := [Entry("a/x", 0, sha1, 0, Intended), Entry("a/y", 0, sha1, 0, Live)];
      && Sorted(E) && Level(E, 0) && Level(Visible(E), 0)
      && Buffer(hash, E, 0) == "" && Buffer(hash, Visible(E), 0) != "" && !LevelShows(E, 0)
  {
    var x, y := Entry("a/x", 0, sha1, 0, Intended), Entry("a/y", 0, sha1, 0, Live);
    TwoEntries(x, y);
    FrontRuns([x, y], 0);
    hide Run, Front, IsDir, Level, Sorted, Visible, Line;
    BufferFirst(hash, [x, y], 0, "a/");
    BufferFirst(hash, [y], 0, "a/");
    LineNotEmpty(Component(y, 0), hash(Buffer(hash, [y][..1], 2)));
  }

  lemma LineNotEmpty(name: string, sha1: Sha)
    ensures |Line(S_IFDIR, name, sha1)| >= 20
  {
    hide Octal;
  }

  // ---- Removing the marked entries ----------------------------------------------------------

  lemma {:induction false} UnderSorted(E: seq<Entry>, base: string)
    requires Sorted(E)
    ensures Sorted(Under(E, base))
  {
    if E != [] {
      SortedTail(E, 1);
      UnderSorted(E[1..], base);
      UnderIn(E[1..], base);
      FirstLeast(E);
      var rest := Under(E[1..], base);
      if In(E[0], base) {
        hide *;
        SortedMore(E[0], rest);
      } else {
        Unit(rest);
      }
    }
  }

  /** Without intents to add, directories that do not begin with a removed entry begin with a live one. */
  lemma {:induction false} StartShows(E: seq<Entry>, n: nat)
    requires Level(E, n) && StartsWell(E, n) && forall e :: e in E ==> !e.mark.Intended?
    ensures ShowsWell(E, n)
    decreases |E|, if E == [] then 0 else |E[0].name| - n
  {
    if E != [] {
      assert E[0] in E;
      if !IsDir(E[0], n) {
        StartShows(E[1..], n);
      } else {
        var below := Front(E[0], n);
        var k := Run(E, below);
        FrontRuns(E, n);
        StartsWellSplit(E, n);
        StartShows(E[..k], |below|);
        StartShows(E[k..], n);
        ShowsWellSplit(E, n);
      }
    }
  }

  lemma FrontOf(E: seq<Entry>, n: nat, e: Entry)
    requires Level(E, n) && E != [] && IsDir(E[0], n) && e in E[..Run(E, Front(E[0], n))]
    ensures Component(e, n) == Component(E[0], n)
    ensures StartsWell(E, n) ==> !E[0].mark.Removed?
  {
    SameFront(E[0], e, n);
  }

  /** In a directory that begins with an entry that stays, that entry stays. */
  lemma {:induction false} KeptLike(E: seq<Entry>, n: nat, e: Entry) returns (e': Entry)
    requires Level(E, n) && StartsWell(E, n) && e in E && IsDir(e, n)
    ensures e' in E && !e'.mark.Removed? && IsDir(e', n) && Component(e', n) == Component(e, n)
    decreases |E|
  {
    hide *;
    if !IsDir(E[0], n) {
      StartsWellFile(E, n);
      e' := KeptLike(E[1..], n, e);
    } else {
      var k := Run(E, Front(E[0], n));
      StartsWellSplit(E, n);
      assert E == E[..k] + E[k..];
      if e in E[..k] {
        FrontOf(E, n, e);
        e' := E[0];
      } else {
        e' := KeptLike(E[k..], n, e);
      }
    }
  }

  lemma StartsWellFile(E: seq<Entry>, n: nat)
    requires Level(E, n) && E != [] && !IsDir(E[0], n) && StartsWell(E, n)
    ensures Level(E[1..], n) && StartsWell(E[1..], n)
    ensures forall e :: e in E ==> e == E[0] || e in E[1..]
  {
    assert E == [E[0]] + E[1..];
    hide IsDir;
  }

  lemma DirsKept(E: seq<Entry>, base: string)
    requires WellNamed(E) && WellBelow(E, base)
    ensures Dirs(Kept(E), base) == Dirs(E, base)
  {
    UnderIn(E, base);
    KeptIn(E);
    var U := Under(E, base);
    forall name | name in Dirs(E, base) ensures name in Dirs(Kept(E), base) {
      var e :| e in E && In(e, base) && IsDir(e, |base|) && Component(e, |base|) == name;
      var e' := KeptLike(U, |base|, e);
      assert e' in Kept(E);
    }
  }

  lemma NodeAfterRemoval(hash: string -> Sha, E: seq<Entry>, t: Tree, base: string)
    requires Sorted(E) && NodeRight(hash, E, t, base) && WellBelow(E, base)
    ensures WellNamed(Kept(E)) && NodeRight(hash, Kept(E), t, base)
  {
    KeptIn(E);
    var F, U := Kept(E), Under(E, base);
    if t.count >= 0 {
      UnderIn(E, base);
      UnderIn(F, base);
      UnderKept(E, base);
      WellCounted(E, base);
      KeptIn(U);
      NoneSkipped(F, base);
      StartShows(U, |base|);
      UnderSorted(E, base);
      LiveTree(hash, U, |base|);
      KeptIsVisible(U);
    }
  }

  /** After removing the marked entries, a known count is that of the entries left exactly if it was right. */
  lemma CountAfterRemoval(hash: string -> Sha, E: seq<Entry>, t: Tree, base: string)
    requires WellNamed(E) && NodeRight(hash, E, t, base) && t.count >= 0
    ensures WellNamed(Kept(E))
    ensures t.count == |Under(Kept(E), base)| - Skips(Kept(E), base) <==> WellBelow(E, base)
  {
    KeptIn(E);
    var F, U := Kept(E), Under(E, base);
    UnderIn(E, base);
    UnderIn(F, base);
    UnderKept(E, base);
    SkipsExact(U, |base|);
    KeptIn(U);
    NoneSkipped(F, base);
  }

  /** No subdirectory of a directory that is known begins with an entry marked for removal. */
  ghost predicate KnownWell(E: seq<Entry>, t: Tree, base: string)
    requires WellNamed(E)
    decreases t
  {
    && (t.count >= 0 ==> WellBelow(E, base))
    && forall i {:trigger t.down[i]} :: 0 <= i < |t.down| && t.down[i].tree.Some? ==>
         KnownWell(E, t.down[i].tree.value, Deeper(base, t.down[i].name))
  }

  /** One node, before and after the removal. */
  lemma NodeRemoval(tight: bool, hash: string -> Sha, E: seq<Entry>, t: Tree, base: string)
    requires Sorted(E) && NodeRight(hash, E, t, base) && (tight && t.count >= 0 ==> Complete(E, t, base))
    ensures WellNamed(Kept(E))
    ensures NodeRight(hash, Kept(E), t, base) && (tight && t.count >= 0 ==> Complete(Kept(E), t, base)) <==>
      (t.count >= 0 ==> WellBelow(E, base))
  {
    hide Skips, TreeHash, WellBelow;
    KeptIn(E);
    if t.count >= 0 {
      CountAfterRemoval(hash, E, t, base);
      if WellBelow(E, base) {
        NodeAfterRemoval(hash, E, t, base);
        DirsKept(E, base);
      }
    }
  }

  /**
   * When the marked entries are removed, all that the tree claims to know is true of the index that is
   * left, exactly if no subdirectory of a known directory begins with an entry marked for removal.
   */
  lemma {:induction false} RemovalExact(tight: bool, hash: string -> Sha, E: seq<Entry>, t: Tree, base: string)
    requires Sorted(E) && Sound(tight, hash, E, t, base)
    ensures WellNamed(Kept(E)) && (Sound(tight, hash, Kept(E), t, base) <==> KnownWell(E, t, base))
    decreases t
  {
    hide Skips, TreeHash, WellBelow, NodeRight, Complete;
    NodeRemoval(tight, hash, E, t, base);
    forall i | 0 <= i < |t.down| && t.down[i].tree.Some?
      ensures Sound(tight, hash, Kept(E), t.down[i].tree.value, Deeper(base, t.down[i].name)) <==>
        KnownWell(E, t.down[i].tree.value, Deeper(base, t.down[i].name))
    {
      RemovalExact(tight, hash, E, t.down[i].tree.value, Deeper(base, t.down[i].name));
    }
  }

  /** The marks do no harm: nothing is an intent to add, and no subdirectory begins with an entry to be removed. */
  ghost predicate Harmless(flags: WriteFlags, hash: string -> Sha, has: set<Sha>, E: seq<Entry>)
    requires WellNamed(E)
  {
    NoIntent(E, "") && AllStartWell(E, "") && (flags.repair ==> AllStored(hash, has, E, ""))
  }

  /** The root after an update, seen from the entries that are to stay. */
  lemma RootOfKept(flags: WriteFlags, hash: string -> Sha, has: set<Sha>, E: seq<Entry>, t: Tree)
    requires Sorted(E) && NodeRight(hash, E, t, "") && Harmless(flags, hash, has, E)
    requires Sure(flags, hash, has, E, "") ==> t.count >= 0
    ensures WellNamed(Kept(E)) && t.count == |Kept(E)| && t.sha1 == TreeHash(hash, Kept(E), "")
  {
    hide Skips, TreeHash, WellBelow, AllStored, Counted;
    KeptIn(E);
    StartsWellCounted(E, "");
    assert Under(E, "") == Under(E, "");
    NodeAfterRemoval(hash, E, t, "");
    UnderIn(Kept(E), "");
    NoneSkipped(Kept(E), "");
    assert forall e :: e in Kept(E) ==> In(e, "");
    UnderAll(Kept(E), "");
  }

  // ---- Updating again before they are removed -----------------------------------------------

  /**
   * What update_one returns for a node that is known: the number of entries it has to be passed over by,
   * exactly if none of them is marked for removal, and else too few.
   */
  lemma KnownAdvances(hash: string -> Sha, E: seq<Entry>, t: Tree, base: string)
    requires WellNamed(E) && NodeRight(hash, E, t, base) && t.count >= 0
    ensures t.count <= |Under(E, base)| && (t.count == |Under(E, base)| <==> NoneRemoved(E, base))
  {
    UnderIn(E, base);
    SkipsExact(Under(E, base), |base|);
    NoneIsZero(Under(E, base));
    if NoneRemoved(E, base) {
      NoneSkipped(E, base);
    }
  }

  lemma {:induction false} NoneIsZero(E: seq<Entry>)
    ensures RemovedIn(E) == 0 <==> forall e :: e in E ==> !e.mark.Removed?
  {
    if E != [] {
      NoneIsZero(E[1..]);
      assert E == [E[0]] + E[1..];
    }
  }

  /** The lines for subdirectories, if each is passed over by the count its node has. */
  ghost function DirLines(E: seq<Entry>, n: nat, count: string -> nat): seq<string>
    requires Level(E, n)
    decreases |E|
  {
    if E == [] then []
    else if !IsDir(E[0], n) then DirLines(E[1..], n, count)
    else
      var k := count(Component(E[0], n));
      [Component(E[0], n)] + if 0 < k <= |E| then DirLines(E[k..], n, count) else []
  }

  /** The counts are those of the subdirectories' entries. */
  ghost predicate Passes(E: seq<Entry>, n: nat, count: string -> nat)
    requires Level(E, n)
    decreases |E|
  {
    if E == [] then true
    else if !IsDir(E[0], n) then Passes(E[1..], n, count)
    else
      FrontRuns(E, n);
      var k := Run(E, Front(E[0], n));
      count(Component(E[0], n)) == k && Passes(E[k..], n, count)
  }

  /** The counts are not more than that, and not zero. */
  ghost predicate NotMore(E: seq<Entry>, n: nat, count: string -> nat)
    requires Level(E, n)
    decreases |E|
  {
    if E == [] then true
    else if !IsDir(E[0], n) then NotMore(E[1..], n, count)
    else
      FrontRuns(E, n);
      var k := Run(E, Front(E[0], n));
      0 < count(Component(E[0], n)) <= k && NotMore(E[k..], n, count)
  }

  lemma DirStepOf(E: seq<Entry>, base: string, count: string -> nat)
    requires Sorted(E) && AllIn(E, base) && E != [] && IsDir(E[0], |base|)
    requires Level(E, |base|) && NotMore(E, |base|, count)
    ensures var n, c := |base|, Component(E[0], |base|); var k, m := Run(E, Front(E[0], n)), count(c);
      && 0 < m <= k && Level(E[k..], n) && Level(E[m..], n) && NotMore(E[k..], n, count)
      && Sorted(E[k..]) && AllIn(E[k..], base)
      && DirLines(E, n, count) == [c] + DirLines(E[m..], n, count)
      && (Passes(E, n, count) <==> m == k && Passes(E[k..], n, count))
  {
    hide *;
    var n := |base|;
    var k := Run(E, Front(E[0], n));
    FrontRuns(E, n);
    NotMoreSplit(E, n, count);
    LevelRest(E, n, count(Component(E[0], n)));
    DirLinesFirst(E, n, count);
    SortedTail(E, k);
    AllInRest(E, base, k);
  }

  lemma AllInRest(E: seq<Entry>, base: string, k: nat)
    requires AllIn(E, base) && k <= |E|
    ensures AllIn(E[k..], base)
  {
    hide In;
  }

  lemma LevelRest(E: seq<Entry>, n: nat, k: nat)
    requires Level(E, n) && k <= |E|
    ensures Level(E[k..], n)
  {
    hide Proper;
  }

  lemma NotMoreSplit(E: seq<Entry>, n: nat, count: string -> nat)
    requires Level(E, n) && E != [] && IsDir(E[0], n)
    ensures var k, m := Run(E, Front(E[0], n)), count(Component(E[0], n));
      && Level(E[k..], n) && k <= |E|
      && (NotMore(E, n, count) <==> 0 < m <= k && NotMore(E[k..], n, count))
      && (Passes(E, n, count) <==> m == k && Passes(E[k..], n, count))
  {
    FrontRuns(E, n);
    hide Run, Front, IsDir, Level, Component;
  }

  lemma DirLinesFirst(E: seq<Entry>, n: nat, count: string -> nat)
    requires Level(E, n) && E != [] && IsDir(E[0], n)
    requires var m := count(Component(E[0], n)); 0 < m <= |E| && Level(E[m..], n)
    ensures DirLines(E, n, count) == [Component(E[0], n)] + DirLines(E[count(Component(E[0], n))..], n, count)
  {
    hide Run, Front, IsDir, Level, Component;
  }

  /** A subdirectory has no line among those of the entries behind it. */
  lemma {:induction false} LineIsDir(E: seq<Entry>, n: nat, count: string -> nat, c: string)
    requires Level(E, n) && c in DirLines(E, n, count)
    ensures exists e :: e in E && IsDir(e, n) && Component(e, n) == c
    decreases |E|
  {
    if !IsDir(E[0], n) {
      LineIsDir(E[1..], n, count, c);
    } else if c != Component(E[0], n) {
      var k := count(Component(E[0], n));
      LineIsDir(E[k..], n, count, c);
    }
  }

  lemma NotAgain(E: seq<Entry>, base: string, count: string -> nat)
    requires Sorted(E) && AllIn(E, base) && E != [] && IsDir(E[0], |base|) && Level(E, |base|)
    ensures var n := |base|; var k := Run(E, Front(E[0], n));
      Level(E[k..], n) && Component(E[0], n) !in DirLines(E[k..], n, count)
  {
    var n, c := |base|, Component(E[0], |base|);
    var k := Run(E, Front(E[0], n));
    FrontRuns(E, n);
    DirRun(E, base);
    assert E[0] in E;
    ComponentPlain(E[0], base);
    if c in DirLines(E[k..], n, count) {
      LineIsDir(E[k..], n, count, c);
      var e :| e in E[k..] && IsDir(e, n) && Component(e, n) == c;
      assert e in E;
      InDeeper(e, base, c);
    }
  }

  /** The entries of a subdirectory that are left give it a line again. */
  lemma AgainFrom(E: seq<Entry>, n: nat, m: nat, count: string -> nat)
    requires Level(E, n) && E != [] && IsDir(E[0], n) && m < Run(E, Front(E[0], n)) && Level(E[m..], n)
    ensures DirLines(E[m..], n, count) != [] && DirLines(E[m..], n, count)[0] == Component(E[0], n)
  {
    SameFront(E[0], E[m], n);
    assert E[m..][0] == E[m];
  }

  /**
   * While no count is more than the subdirectory's entries, no subdirectory is listed twice exactly if
   * each count is that of its entries.
   */
  lemma {:induction false} ListedOnceIff(E: seq<Entry>, base: string, count: string -> nat)
    requires Sorted(E) && AllIn(E, base) && Level(E, |base|) && NotMore(E, |base|, count)
    ensures Distinct(DirLines(E, |base|, count)) <==> Passes(E, |base|, count)
    decreases |E|
  {
    if E != [] {
      var n := |base|;
      if !IsDir(E[0], n) {
        SortedTail(E, 1);
        ListedOnceIff(E[1..], base, count);
      } else {
        hide *;
        var k, m := Run(E, Front(E[0], n)), count(Component(E[0], n));
        DirStepOf(E, base, count);
        if m == k {
          NotAgain(E, base, count);
          ListedOnceIff(E[k..], base, count);
          OneMore(Component(E[0], n), DirLines(E[k..], n, count));
        } else {
          AgainFrom(E, n, m, count);
          OneMore(Component(E[0], n), DirLines(E[m..], n, count));
        }
      }
    }
  }

  lemma OneMore<T>(x: T, s: seq<T>)
    ensures Distinct([x] + s) <==> x !in s && Distinct(s)
  {
    var all := [x] + s;
    if Distinct(all) {
      forall i, j | 0 <= i < j < |s| ensures s[i] != s[j] {
        assert all[i + 1] == s[i] && all[j + 1] == s[j];
      }
      forall i | 0 <= i < |s| ensures s[i] != x {
        assert all[0] == x && all[i + 1] == s[i];
      }
    }
  }

  /** A subdirectory three of whose entries count as two, as after an update, is listed twice by the next one. */
  lemma ListedTwice(x: Entry, y: Entry, z: Entry, count: string -> nat)
    requires x.name == "a/x" && y.name == "a/y" && z.name == "a/z" && x.mark.Live? && y.mark.Removed? && z.mark.Live?
    requires count("a") == 2
    ensures var E := [x, y, z];
      Sorted(E) && Level(E, 0) && Inner(E, 0) + Outer(E, 0) == 1 && DirLines(E, 0, count) == ["a", "a"]
  {
    ThreeNames();
    hide Less, Slash;
    var E := [x, y, z];
    assert In(x, "a/") && In(y, "a/") && In(z, "a/");
    assert E[1..] == [y, z] && [y, z][1..] == [z] && [z][1..] == [] && E[2..] == [z] && E[..3] == E && E[3..] == [];
    assert Run([z], "a/") == 1 && Run([y, z], "a/") == 2 && Run(E, "a/") == 3;
    ThreeSkipped(x, y, z);
    assert DirLines([z], 0, count) == ["a"];
  }

  lemma ThreeNames()
    ensures Less("a/x", "a/y") && Less("a/y", "a/z") && Less("a/x", "a/z")
    ensures Slash("a/x", 0) == 1 && Slash("a/y", 0) == 1 && Slash("a/z", 0) == 1
    ensures Slash("a/x", 2) == 3 && Slash("a/y", 2) == 3 && Slash("a/z", 2) == 3
    ensures "a/x"[..2] == "a/" && "a/y"[..2] == "a/" && "a/z"[..2] == "a/" && "a/" <= "a/x" && "a/" <= "a/y" &&
      "a/" <= "a/z"
    ensures "a/x"[0..1] == "a" && "a/z"[0..1] == "a"
  {
    assert "a/x"[1..] == "/x" && "a/y"[1..] == "/y" && "a/z"[1..] == "/z";
    assert "/x"[1..] == "x" && "/y"[1..] == "y" && "/z"[1..] == "z";
    assert Less("x", "y") && Less("y", "z") && Less("x", "z") && Less("/x", "/y") && Less("/y", "/z") &&
      Less("/x", "/z");
  }

  lemma ThreeSkipped(x: Entry, y: Entry, z: Entry)
    requires x.name == "a/x" && y.name == "a/y" && z.name == "a/z" && x.mark.Live? && y.mark.Removed? && z.mark.Live?
    requires Level([x, y, z], 0) && Run([x, y, z], "a/") == 3
    ensures Inner([x, y, z], 0) + Outer([x, y, z], 0) == 1
  {
    var E := [x, y, z];
    ThreeNames();
    hide Less, Slash, Run;
    assert !IsDir(x, 2) && !IsDir(y, 2) && !IsDir(z, 2) && IsDir(x, 0);
    assert E[1..] == [y, z] && [y, z][1..] == [z] && E[..3] == E && E[3..] == [];
    OneFile(z, 2);
    FrontRuns(E, 0);
    assert Inner([y, z], 2) == 0 && Outer([y, z], 2) == 1;
    assert Inner(E, 2) == 0 && Outer(E, 2) == 1;
    SkipsSplit(E, 0);
  }
}
