/** Clearing the marks a walk leaves behind (clear_commit_marks_1, clear_commit_marks_many). */
module CommitMarks {
  import opened CommitGraph

  /** The commits of `G` carrying at least one of the `mark` bits. */
  ghost function Marked(G: set<Commit>, mark: set<Flag>): set<Commit>
    reads G
  {
    set c | c in G && mark * c.flags != {}
  }

  /**
   * Where a clearing walk stands: it started with the commits `M` marked, `R` of them reached from
   * the tips through marked commits; `now` are still marked and `list` is left to visit.
   */
  ghost predicate Clearing(M: set<Commit>, R: set<Commit>, tips: set<Commit>, now: set<Commit>, list: set<Commit>) {
    && now <= M
    && (forall c :: c in M && c !in now ==> c in R)
    && (forall c :: c in list && c in M ==> c in R)
    && (forall c :: c in tips && c in now ==> c in list)
    && (forall c, p :: c in M && c !in now && p in c.parents && p in now ==> p in list)
  }

  lemma ClearingSkips(M: set<Commit>, R: set<Commit>, tips: set<Commit>, now: set<Commit>, list: set<Commit>, c: Commit)
    requires Clearing(M, R, tips, now, list + {c}) && c !in now
    ensures Clearing(M, R, tips, now, list)
  {}

  lemma ClearingDescends(M: set<Commit>, R: set<Commit>, tips: set<Commit>, now: set<Commit>, list: set<Commit>,
      c: Commit)
    requires Clearing(M, R, tips, now, list + {c}) && c in now && ClosedIn(M, R)
    ensures Clearing(M, R, tips, now - {c}, list + Elements(c.parents))
  {
    assert c in list + {c};
  }

  lemma ClearingDone(M: set<Commit>, tips: set<Commit>, now: set<Commit>)
    requires Clearing(M, ReachSet(M, tips), tips, now, {})
    ensures now == M - ReachSet(M, tips)
  {
    forall c | c in ReachSet(M, tips) ensures c !in now {
      var t :| t in tips && Reach(M, t, c);
      ReachEnds(M, t, c);
      ReachClosed(M, M - now, t, c);
    }
  }

  /** The walk's effect on flags: the commits of `cleared` lost the mark, and nothing else changed. */
  twostate predicate OnlyCleared(G: set<Commit>, mark: set<Flag>, cleared: set<Commit>)
    reads G
  {
    forall c :: c in G ==> c.flags == if c in cleared then old(c.flags) - mark else old(c.flags)
  }

  /** `commit.flags &= ~mark`. */
  method ClearFlags(ghost G: set<Commit>, commit: Commit, mark: set<Flag>)
    requires commit in G
    modifies commit`flags
    ensures commit.flags == old(commit.flags) - mark
    ensures Marked(G, mark) == old(Marked(G, mark)) - {commit}
  {
    commit.flags := commit.flags - mark;
  }

  /** One strand: clear and follow first parents, pushing the other parents, until an unmarked commit. */
  method ClearCommitMarks1(ghost G: set<Commit>, list: seq<Commit>, start: Commit, mark: set<Flag>,
      ghost M: set<Commit>, ghost R: set<Commit>, ghost tips: set<Commit>)
    returns (rest: seq<Commit>, ghost cleared: set<Commit>)
    requires History(G) && start in G && Elements(list) <= G && ClosedIn(M, R)
    requires Clearing(M, R, tips, Marked(G, mark), Elements(list) + {start})
    modifies G`flags
    ensures Elements(rest) <= G
    ensures cleared <= old(Marked(G, mark)) && OnlyCleared(G, mark, cleared)
    ensures Marked(G, mark) == old(Marked(G, mark)) - cleared
    ensures Clearing(M, R, tips, Marked(G, mark), Elements(rest))
    ensures cleared == {} ==> rest == list
  {
    rest := list;
    cleared := {};
    var commit := start;
    ghost var now := Marked(G, mark);
    while true
      invariant commit in G && Elements(rest) <= G
      invariant cleared <= old(Marked(G, mark)) && OnlyCleared(G, mark, cleared)
      invariant now == Marked(G, mark) == old(Marked(G, mark)) - cleared
      invariant Clearing(M, R, tips, now, Elements(rest) + {commit})
      invariant cleared == {} ==> rest == list && commit == start
      decreases now
    {
      if mark * commit.flags == {} {
        ClearingSkips(M, R, tips, now, Elements(rest), commit);
        return;
      }
      ClearingDescends(M, R, tips, now, Elements(rest), commit);
      ClearFlags(G, commit, mark);
      cleared, now := cleared + {commit}, now - {commit};
      if commit.parents == [] {
        assert Elements(rest) + Elements(commit.parents) == Elements(rest);
        return;
      }
      ghost var before := Elements(rest);
      rest := PushOtherParents(rest, commit.parents);
      assert before + Elements(commit.parents) == Elements(rest) + {commit.parents[0]};
      commit := commit.parents[0];
    }
  }

  /** Push every parent but the first onto the front of the list. */
  method PushOtherParents(list: seq<Commit>, parents: seq<Commit>) returns (r: seq<Commit>)
    requires parents != []
    ensures Elements(r) + {parents[0]} == Elements(list) + Elements(parents)
  {
    r := list;
    var k := 1;
    while k < |parents|
      invariant 1 <= k <= |parents|
      invariant Elements(r) + {parents[0]} == Elements(list) + Elements(parents[..k])
    {
      assert parents[..k + 1] == parents[..k] + [parents[k]];
      ElementsConcat(parents[..k], [parents[k]]);
      ElementsConcat([parents[k]], r);
      r := [parents[k]] + r;
      k := k + 1;
    }
    assert parents[..k] == parents;
  }

  /** Pop strands off the list until it is empty. */
  method ClearList(ghost G: set<Commit>, commits: seq<Commit>, mark: set<Flag>,
      ghost M: set<Commit>, ghost R: set<Commit>, ghost tips: set<Commit>)
    returns (ghost cleared: set<Commit>)
    requires History(G) && Elements(commits) <= G && ClosedIn(M, R)
    requires Clearing(M, R, tips, Marked(G, mark), Elements(commits))
    modifies G`flags
    ensures cleared <= old(Marked(G, mark)) && OnlyCleared(G, mark, cleared)
    ensures Marked(G, mark) == old(Marked(G, mark)) - cleared
    ensures Clearing(M, R, tips, Marked(G, mark), {})
  {
    var list := commits;
    ghost var now := Marked(G, mark);
    cleared := {};
    while list != []
      invariant Elements(list) <= G
      invariant cleared <= old(Marked(G, mark)) && OnlyCleared(G, mark, cleared)
      invariant now == Marked(G, mark) == old(Marked(G, mark)) - cleared
      invariant Clearing(M, R, tips, now, Elements(list))
      decreases now, |list|
    {
      var commit := list[0];
      assert Elements(list[1..]) + {commit} == Elements(list);
      ghost var more;
      list, more := ClearCommitMarks1(G, list[1..], commit, mark, M, R, tips);
      now, cleared := now - more, cleared + more;
    }
    assert Elements(list) == {};
  }

  /** Clear `mark` on everything reached from `commits` through marked commits; nothing else changes. */
  method ClearCommitMarksMany(ghost G: set<Commit>, commits: seq<Commit>, mark: set<Flag>)
    requires History(G) && Elements(commits) <= G
    modifies G`flags
    ensures OnlyCleared(G, mark, old(ReachSet(Marked(G, mark), Elements(commits))))
    ensures Marked(G, mark) == old(Marked(G, mark) - ReachSet(Marked(G, mark), Elements(commits)))
  {
    ghost var M, tips := Marked(G, mark), Elements(commits);
    var list: seq<Commit> := [];
    var k := 0;
    while k < |commits|
      invariant 0 <= k <= |commits| && Elements(list) == Elements(commits[..k])
      modifies {}
    {
      assert commits[..k + 1] == commits[..k] + [commits[k]];
      ElementsConcat(commits[..k], [commits[k]]);
      ElementsConcat([commits[k]], list);
      list := [commits[k]] + list;
      k := k + 1;
    }
    assert commits[..k] == commits;
    ReachSetClosed(M, tips);
    ghost var cleared := ClearList(G, list, mark, M, ReachSet(M, tips), tips);
    ClearingDone(M, tips, Marked(G, mark));
    assert cleared == ReachSet(M, tips);
  }

  /** Clear `mark` from one commit down. */
  method ClearCommitMarks(ghost G: set<Commit>, commit: Commit, mark: set<Flag>)
    requires History(G) && commit in G
    modifies G`flags
    ensures OnlyCleared(G, mark, old(ReachSet(Marked(G, mark), {commit})))
    ensures Marked(G, mark) == old(Marked(G, mark) - ReachSet(Marked(G, mark), {commit}))
  {
    assert Elements([commit]) == {commit};
    ClearCommitMarksMany(G, [commit], mark);
  }

  lemma NoneMarked(G: set<Commit>, mark: set<Flag>)
    requires Marked(G, mark) == {}
    ensures forall c, f :: c in G && f in c.flags ==> f !in mark
  {
    forall c, f | c in G && f in c.flags ensures f in mark ==> c in Marked(G, mark) {
      assert f in mark ==> f in mark * c.flags;
    }
  }

  /** Clearing from `A` and then from `B` misses nothing that `A` and `B` together reach. */
  lemma ClearTwice(M: set<Commit>, A: set<Commit>, B: set<Commit>)
    ensures ReachSet(M, A + B) == ReachSet(M, A) + ReachSet(M - ReachSet(M, A), B)
  {
    var RA, M' := ReachSet(M, A), M - ReachSet(M, A);
    ReachSetClosed(M, A);
    ReachSetClosed(M', B);
    forall c | c in ReachSet(M, A + B) ensures c in RA + ReachSet(M', B) {
      var t :| t in A + B && Reach(M, t, c);
      ReachEnds(M, t, c);
      ReachClosed(M, RA + ReachSet(M', B), t, c);
    }
    forall c | c in ReachSet(M', B) ensures c in ReachSet(M, A + B) {
      var t :| t in B && Reach(M', t, c);
      ReachSubset(M', M, t, c);
    }
  }

  /** Marks that always trace back, child by child, to a tip are all reached from the tips through marks. */
  lemma SupportedMarksReached(G: set<Commit>, M: set<Commit>, tips: set<Commit>, c: Commit)
    requires Acyclic(G) && M <= G
    requires forall m :: m in M ==> m in tips || exists d :: d in M && m in d.parents
    requires c in M
    ensures c in ReachSet(M, tips)
    decreases Descendants(G, c)
  {
    if c in tips {
      ReachSelf(M, c);
    } else {
      var d :| d in M && c in d.parents;
      ReachSelf(G, c);
      ReachVia(G, d, c, c);
      DescendantsShrink(G, d, c);
      SupportedMarksReached(G, M, tips, d);
      var t :| t in tips && Reach(M, t, d);
      ReachStep(M, t, d, c);
    }
  }
}
