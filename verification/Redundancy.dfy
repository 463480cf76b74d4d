/** remove_redundant: moving the commits other members descend from to the end of the commits. */
module Redundancy {
  import opened Basics
  import opened CommitGraph
  import opened CommitMarks
  import opened Painting
  import opened MergeBases

  /** Clear the marks from `one`, then from each commit of `work` in turn. */
  method ClearEach(ghost G: set<Commit>, one: Commit, work: seq<Commit>)
    requires History(G) && one in G && Elements(work) <= G
    requires Marked(G, ALL_FLAGS) == ReachSet(Marked(G, ALL_FLAGS), {one} + Elements(work))
    modifies G`flags
    ensures PaintRemoved(G)
  {
    hide ReachSet, Marked;
    ghost var M := Marked(G, ALL_FLAGS);
    ClearFrom(G, one);
    assert {one} + Elements(work[..0]) == {one} by { assert Elements([]) == {}; }
    var j := 0;
    while j < |work|
      invariant 0 <= j <= |work|
      invariant Marked(G, ALL_FLAGS) == M - ReachSet(M, {one} + Elements(work[..j]))
      invariant OnlyLost(G)
    {
      ClearNext(M, one, work, j);
      ClearFrom(G, work[j]);
      j := j + 1;
    }
    assert work[..j] == work;
    NoneMarked(G, ALL_FLAGS);
  }

  /** clear_commit_marks of all the paint flags from one commit. */
  method ClearFrom(ghost G: set<Commit>, c: Commit)
    requires History(G) && c in G
    modifies G`flags
    ensures OnlyLost(G)
    ensures Marked(G, ALL_FLAGS) == old(Marked(G, ALL_FLAGS) - ReachSet(Marked(G, ALL_FLAGS), {c}))
  {
    ClearCommitMarks(G, c, ALL_FLAGS);
  }

  /** Flags only shrink, and only by paint flags. */
  twostate predicate OnlyLost(G: set<Commit>)
    reads G
  {
    && (forall c, f {:trigger f in c.flags} {:trigger f in old(c.flags)} :: c in G && f in c.flags ==>
         f in old(c.flags))
    && (forall c, f {:trigger f in c.flags} {:trigger f in old(c.flags)} :: c in G && f in old(c.flags) ==>
          f in ALL_FLAGS || f in c.flags)
  }

  lemma ClearNext(M: set<Commit>, one: Commit, work: seq<Commit>, j: nat)
    requires j < |work|
    ensures work[j] in Elements(work)
    ensures M - ReachSet(M, {one} + Elements(work[..j + 1])) ==
            var M' := M - ReachSet(M, {one} + Elements(work[..j])); M' - ReachSet(M', {work[j]})
  {
    assert work[..j + 1] == work[..j] + [work[j]];
    ElementsConcat(work[..j], [work[j]]);
    assert Elements([work[j]]) == {work[j]};
    assert {one} + Elements(work[..j + 1]) == {one} + Elements(work[..j]) + {work[j]};
    ClearTwice(M, {one} + Elements(work[..j]), {work[j]});
  }

  /** The members other than `i` not yet found redundant, with their places. */
  ghost predicate Others(s: seq<Commit>, red: seq<bool>, i: nat, work: seq<Commit>, filled: seq<nat>) {
    && |red| == |s| && |work| == |filled|
    && (forall j :: 0 <= j < |filled| ==>
         filled[j] < |s| && filled[j] != i && !red[filled[j]] && work[j] == s[filled[j]])
    && (forall k :: 0 <= k < |s| && k != i && !red[k] ==> s[k] in work)
  }

  method CollectOthers(s: seq<Commit>, redundant: array<bool>, i: nat)
    returns (work: seq<Commit>, filled: seq<nat>)
    requires redundant.Length == |s| && i < |s|
    ensures Others(s, redundant[..], i, work, filled) && Elements(work) <= Elements(s)
  {
    work, filled := [], [];
    var k := 0;
    while k < |s|
      invariant 0 <= k <= |s| && |work| == |filled|
      invariant forall j :: 0 <= j < |filled| ==>
        filled[j] < k && filled[j] != i && !redundant[filled[j]] && work[j] == s[filled[j]]
      invariant forall m :: 0 <= m < k && m != i && !redundant[m] ==> s[m] in work
      invariant forall c :: c in work ==> c in s
    {
      if k != i && !redundant[k] {
        work, filled := work + [s[k]], filled + [k];
        assert s[k] == work[|work| - 1];
      }
      k := k + 1;
    }
  }

  /** Only members other members descend from are marked. */
  ghost predicate SoundMarks(G: set<Commit>, s: seq<Commit>, red: seq<bool>) {
    |red| == |s| && forall k :: 0 <= k < |s| && red[k] ==> Redundant(G, s, s[k])
  }

  lemma MemberIsBelow(G: set<Commit>, s: seq<Commit>, i: nat, work: seq<Commit>, red: seq<bool>, filled: seq<nat>)
    requires i < |s| && Distinct(s) && Others(s, red, i, work, filled)
    requires s[i] in ReachSet(G, Elements(work))
    ensures Redundant(G, s, s[i])
  {
    var w :| w in Elements(work) && Reach(G, w, s[i]);
    var j :| 0 <= j < |work| && work[j] == w;
    assert s[filled[j]] == w;
  }

  /**
   * If some member descends from `s[i]`, then so does one that was not marked: nothing is lost by
   * skipping marked ones.
   */
  lemma UnmarkedAbove(G: set<Commit>, s: seq<Commit>, i: nat, work: seq<Commit>, red: seq<bool>, filled: seq<nat>)
    requires History(G) && Elements(s) <= G && i < |s| && Others(s, red, i, work, filled) && SoundMarks(G, s, red)
    requires Redundant(G, s, s[i])
    ensures s[i] in ReachSet(G, Elements(work)) && work != []
  {
    var d :| d in s && d != s[i] && Reach(G, d, s[i]);
    assert d in Elements(s) && s[i] in Elements(s);
    var m := HeadAbove(G, s, d);
    ReachTrans(G, m, d, s[i]);
    if m == s[i] {
      ReachAntisym(G, m, d);
    }
    var k :| 0 <= k < |s| && s[k] == m;
    assert m in work;
  }

  /** The walk, and what its marks say here: who lies below `one`, and whether `one` lies below the rest. */
  method PaintAgainst(ghost G: set<Commit>, one: Commit, work: seq<Commit>)
    requires History(G) && Unpainted(G) && one in G && Elements(work) <= G
    modifies G`flags
    ensures OnlyGrown(G) && Marked(G, ALL_FLAGS) == ReachSet(Marked(G, ALL_FLAGS), {one} + Elements(work))
    ensures forall c :: c in work && Parent1 in c.flags ==> Reach(G, one, c)
    ensures Parent2 in one.flags ==> one in ReachSet(G, Elements(work))
    ensures AllParsable(G) && work != [] && one in ReachSet(G, Elements(work)) ==> Parent2 in one.flags
  {
    var common, parsed := PaintDownToCommon(G, one, work);
    ghost var b := PaintBounds(G, one, Elements(work));
    assert b.Allow(one, one.flags);
    assert forall c :: c in work ==> c in Elements(work) && b.Allow(c, c.flags);
  }

  /** Walk from `s[i]` against the unmarked rest and mark what turns out to lie below something. */
  method WalkAndMark(ghost G: set<Commit>, s: seq<Commit>, redundant: array<bool>, i: nat)
    returns (work: seq<Commit>)
    requires History(G) && Unpainted(G) && Elements(s) <= G && Distinct(s)
    requires redundant.Length == |s| && i < |s| && SoundMarks(G, s, redundant[..])
    modifies G`flags, redundant
    ensures OnlyGrown(G) && SoundMarks(G, s, redundant[..])
    ensures s[i] in G && Elements(work) <= G
    ensures Marked(G, ALL_FLAGS) == ReachSet(Marked(G, ALL_FLAGS), {s[i]} + Elements(work))
    ensures forall k :: 0 <= k < |s| && old(redundant[k]) ==> redundant[k]
    ensures AllParsable(G) && Redundant(G, s, s[i]) ==> redundant[i]
  {
    var filled;
    work, filled := CollectOthers(s, redundant, i);
    ghost var red := redundant[..];
    assert s[i] in Elements(s);
    if Redundant(G, s, s[i]) {
      UnmarkedAbove(G, s, i, work, red, filled);
    }
    PaintAgainst(G, s[i], work);
    if Parent2 in s[i].flags {
      MemberIsBelow(G, s, i, work, red, filled);
      redundant[i] := true;
    }
    MarkBelow(G, s, redundant, i, work, filled);
  }

  /** One round: walk, mark, and remove every trace of the walk. */
  method CompareWithRest(ghost G: set<Commit>, s: seq<Commit>, redundant: array<bool>, i: nat)
    requires History(G) && Unpainted(G) && Elements(s) <= G && Distinct(s)
    requires redundant.Length == |s| && i < |s| && SoundMarks(G, s, redundant[..])
    modifies G`flags, redundant
    ensures Restored(G) && SoundMarks(G, s, redundant[..])
    ensures forall k :: 0 <= k < |s| && old(redundant[k]) ==> redundant[k]
    ensures AllParsable(G) && Redundant(G, s, s[i]) ==> redundant[i]
  {
    var work := WalkAndMark(G, s, redundant, i);
    ClearEach(G, s[i], work);
    forall c | c in G ensures c.flags == old(c.flags) {
      assert forall f :: f in c.flags <==> f in old(c.flags);
    }
  }

  /** Mark every member of `work` that the first side has reached. */
  method MarkBelow(ghost G: set<Commit>, s: seq<Commit>, redundant: array<bool>, i: nat, work: seq<Commit>,
      filled: seq<nat>)
    requires redundant.Length == |s| && i < |s| && Distinct(s) && |work| == |filled|
    requires SoundMarks(G, s, redundant[..])
    requires forall j :: 0 <= j < |filled| ==> filled[j] < |s| && filled[j] != i && work[j] == s[filled[j]]
    requires forall c :: c in work && Parent1 in c.flags ==> Reach(G, s[i], c)
    modifies redundant
    ensures SoundMarks(G, s, redundant[..])
    ensures forall k :: 0 <= k < |s| && old(redundant[k]) ==> redundant[k]
  {
    var j := 0;
    while j < |work|
      invariant 0 <= j <= |work|
      invariant SoundMarks(G, s, redundant[..])
      invariant forall k :: 0 <= k < |s| && old(redundant[k]) ==> redundant[k]
    {
      if Parent1 in work[j].flags {
        assert s[i] in s && Redundant(G, s, s[filled[j]]);
        redundant[filled[j]] := true;
      }
      j := j + 1;
    }
  }

  // ---- The partition ------------------------------------------------------------------------

  /** The elements of `s` whose mark is `want`, in order. */
  function Select<T>(s: seq<T>, red: seq<bool>, want: bool): seq<T>
    requires |s| == |red|
  {
    if s == [] then []
    else Select(s[..|s| - 1], red[..|s| - 1], want) + if red[|s| - 1] == want then [s[|s| - 1]] else []
  }

  lemma {:induction false} SelectContents<T>(s: seq<T>, red: seq<bool>, want: bool)
    requires |s| == |red|
    ensures forall x :: x in Select(s, red, want) <==> exists k :: 0 <= k < |s| && s[k] == x && red[k] == want
    ensures Distinct(s) ==> Distinct(Select(s, red, want))
    ensures |Select(s, red, want)| <= |s|
  {
    if s != [] {
      var n := |s| - 1;
      SelectContents(s[..n], red[..n], want);
      assert forall k :: 0 <= k < n ==> s[..n][k] == s[k] && red[..n][k] == red[k];
      assert Select(s, red, want) == Select(s[..n], red[..n], want) + if red[n] == want then [s[n]] else [];
      if Distinct(s) {
        assert Distinct(s[..n]);
        assert s[n] !in Select(s[..n], red[..n], want);
      }
    }
  }

  lemma {:induction false} SelectBoth<T>(s: seq<T>, red: seq<bool>)
    requires |s| == |red|
    ensures multiset(Select(s, red, false)) + multiset(Select(s, red, true)) == multiset(s)
    ensures |Select(s, red, false)| + |Select(s, red, true)| == |s|
  {
    SelectNone(s, red, false);
    SelectNone(s, red, true);
    hide Select;
    if s != [] {
      var n := |s| - 1;
      SelectBoth(s[..n], red[..n]);
      var keep, drop := Select(s[..n], red[..n], false), Select(s[..n], red[..n], true);
      SelectNext(s, red, false, n);
      SelectNext(s, red, true, n);
      WithLast(s, red, n);
      OneMore(keep, drop, s[..n], s[n]);
    }
  }

  lemma SelectNone<T>(s: seq<T>, red: seq<bool>, want: bool)
    requires |s| == |red|
    ensures s == [] ==> Select(s, red, want) == []
  {}

  lemma WithLast<T>(s: seq<T>, red: seq<bool>, n: nat)
    requires |s| == |red| == n + 1
    ensures s[..n + 1] == s && red[..n + 1] == red && s == s[..n] + [s[n]]
  {}

  lemma OneMore<T>(a: seq<T>, b: seq<T>, s: seq<T>, x: T)
    requires multiset(a) + multiset(b) == multiset(s)
    ensures multiset(a + [x]) + multiset(b + []) == multiset(s + [x])
    ensures multiset(a + []) + multiset(b + [x]) == multiset(s + [x])
  {
    assert a + [] == a && b + [] == b;
  }

  lemma SelectNext<T>(s: seq<T>, red: seq<bool>, want: bool, i: nat)
    requires |s| == |red| && i < |s|
    ensures Select(s[..i + 1], red[..i + 1], want) ==
            Select(s[..i], red[..i], want) + if red[i] == want then [s[i]] else []
  {
    assert s[..i + 1][..i] == s[..i] && red[..i + 1][..i] == red[..i];
  }

  /** Write the selected elements of `work` into `commits` from `start` on. */
  method Gather(commits: array<Commit>, work: seq<Commit>, redundant: array<bool>, want: bool, start: nat)
    returns (filled: nat)
    requires |work| == commits.Length == redundant.Length
    requires start + |Select(work, redundant[..], want)| <= commits.Length
    modifies commits
    ensures filled == start + |Select(work, redundant[..], want)|
    ensures commits[..start] == old(commits[..start])
    ensures commits[start..filled] == Select(work, redundant[..], want)
  {
    ghost var red := redundant[..];
    filled := start;
    var i := 0;
    while i < commits.Length
      invariant 0 <= i <= commits.Length && redundant[..] == red
      invariant filled == start + |Select(work[..i], red[..i], want)| <= commits.Length
      invariant commits[..start] == old(commits[..start])
      invariant commits[start..filled] == Select(work[..i], red[..i], want)
    {
      SelectNext(work, red, want, i);
      SelectPrefix(work, red, want, i + 1);
      if redundant[i] == want {
        commits[filled] := work[i];
        filled := filled + 1;
      }
      i := i + 1;
    }
    assert work[..i] == work && red[..i] == red;
  }

  lemma {:induction false} SelectPrefix<T>(s: seq<T>, red: seq<bool>, want: bool, i: nat)
    requires |s| == |red| && i <= |s|
    ensures |Select(s[..i], red[..i], want)| <= |Select(s, red, want)|
    decreases |s| - i
  {
    if i < |s| {
      SelectNext(s, red, want, i);
      SelectPrefix(s, red, want, i + 1);
    } else {
      assert s[..i] == s && red[..i] == red;
    }
  }

  /**
   * remove_redundant: a stable partition of the commits. In front, in their old order, the members no
   * other member descends from (and, if some commit cannot be parsed, possibly more); behind, the rest.
   */
  method RemoveRedundant(ghost G: set<Commit>, commits: array<Commit>) returns (filled: nat, ghost red: seq<bool>)
    requires History(G) && Unpainted(G) && Elements(commits[..]) <= G && Distinct(commits[..]) && commits.Length > 0
    modifies G`flags, commits
    ensures Restored(G)
    ensures SoundMarks(G, old(commits[..]), red)
    ensures AllParsable(G) ==> forall k :: 0 <= k < |red| ==>
      (red[k] <==> Redundant(G, old(commits[..]), old(commits[..])[k]))
    ensures filled == |Select(old(commits[..]), red, false)| <= commits.Length
    ensures commits[..filled] == Select(old(commits[..]), red, false)
    ensures commits[filled..] == Select(old(commits[..]), red, true)
  {
    hide Select, SoundMarks, Redundant, Distinct, Reach;
    var s := commits[..];
    var redundant := FindRedundant(G, s);
    red := redundant[..];
    SelectBoth(s, red);
    filled := Gather(commits, s, redundant, false, 0);
    var end := Gather(commits, s, redundant, true, filled);
  }

  /** The first half of remove_redundant: find the members other members descend from. */
  method FindRedundant(ghost G: set<Commit>, s: seq<Commit>) returns (redundant: array<bool>)
    requires History(G) && Unpainted(G) && Elements(s) <= G && Distinct(s)
    modifies G`flags
    ensures fresh(redundant) && redundant.Length == |s|
    ensures Restored(G) && SoundMarks(G, s, redundant[..])
    ensures AllParsable(G) ==> forall k :: 0 <= k < |s| ==> (redundant[k] <==> Redundant(G, s, s[k]))
  {
    redundant := new bool[|s|](_ => false);
    var i := 0;
    while i < |s|
      invariant 0 <= i <= |s|
      invariant Restored(G) && SoundMarks(G, s, redundant[..])
      invariant AllParsable(G) ==> forall k :: 0 <= k < i && Redundant(G, s, s[k]) ==> redundant[k]
    {
      if !redundant[i] {
        CompareWithRest(G, s, redundant, i);
      }
      i := i + 1;
    }
  }
}
