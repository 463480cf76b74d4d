/** Merge bases, redundancy removal and ancestry tests built on the paint walk. */
module MergeBases {
  import opened Basics
  import opened CommitGraph
  import opened CommitMarks
  import opened Painting

  ghost predicate AllParsable(G: set<Commit>) {
    forall c :: c in G ==> c.parsable
  }

  /** Some other member of `s` descends from `c`. */
  ghost predicate Redundant(G: set<Commit>, s: seq<Commit>, c: Commit) {
    exists d :: d in s && d != c && Reach(G, d, c)
  }

  /** Every commit has the flags it started with. */
  twostate predicate Restored(G: set<Commit>)
    reads G
  {
    forall c :: c in G ==> c.flags == old(c.flags)
  }

  /** The paint flags are gone and everything else is as it was. */
  twostate predicate PaintRemoved(G: set<Commit>)
    reads G
  {
    && (forall c, f {:trigger f in c.flags} {:trigger f in old(c.flags)} :: c in G && f in c.flags ==>
         f in old(c.flags) && f !in ALL_FLAGS)
    && (forall c, f {:trigger f in c.flags} {:trigger f in old(c.flags)} :: c in G && f in old(c.flags) ==>
         f in ALL_FLAGS || f in c.flags)
  }

  // ---- Climbing to the top ------------------------------------------------------------------

  /** Every common ancestor is an ancestor of a best one. */
  lemma BestAbove(G: set<Commit>, one: Commit, twos: set<Commit>, c: Commit) returns (x: Commit)
    requires History(G) && c in G && Common(G, one, twos, c)
    ensures x in G && Best(G, one, twos, x) && Reach(G, x, c)
    decreases Descendants(G, c)
  {
    if d :| d in G && Common(G, one, twos, d) && Reach(G, d, c) && d != c {
      DescendantsShrink(G, d, c);
      x := BestAbove(G, one, twos, d);
      ReachTrans(G, x, d, c);
    } else {
      ReachSelf(G, c);
      x := c;
    }
  }

  /** Above every member of `s` there is a member no other member descends from. */
  lemma HeadAbove(G: set<Commit>, s: seq<Commit>, c: Commit) returns (x: Commit)
    requires History(G) && c in s && c in G && Elements(s) <= G
    ensures x in s && !Redundant(G, s, x) && Reach(G, x, c)
    decreases Descendants(G, c)
  {
    if d :| d in s && d != c && Reach(G, d, c) {
      ReachEnds(G, d, c);
      DescendantsShrink(G, d, c);
      x := HeadAbove(G, s, d);
      ReachTrans(G, x, d, c);
    } else {
      ReachSelf(G, c);
      x := c;
    }
  }

  /** Between all best and only common ancestors, the members no other member descends from are the best ones. */
  lemma HeadsAreBest(G: set<Commit>, one: Commit, twos: set<Commit>, s: seq<Commit>, c: Commit)
    requires History(G) && c in s
    requires forall x :: x in s ==> x in G && Common(G, one, twos, x)
    requires forall x :: x in G && Best(G, one, twos, x) ==> x in s
    ensures !Redundant(G, s, c) <==> Best(G, one, twos, c)
  {
    if !Redundant(G, s, c) {
      var x := BestAbove(G, one, twos, c);
      assert x == c;
    }
  }

  // ---- Cleaning up after a walk -------------------------------------------------------------

  /** clear_commit_marks(one) followed by clear_commit_marks_many(twos). */
  method ClearWalk(ghost G: set<Commit>, one: Commit, twos: seq<Commit>)
    requires History(G) && one in G && Elements(twos) <= G
    requires Marked(G, ALL_FLAGS) == ReachSet(Marked(G, ALL_FLAGS), {one} + Elements(twos))
    modifies G`flags
    ensures PaintRemoved(G)
  {
    ghost var M := Marked(G, ALL_FLAGS);
    ClearTwice(M, {one}, Elements(twos));
    ClearCommitMarks(G, one, ALL_FLAGS);
    ClearCommitMarksMany(G, twos, ALL_FLAGS);
    assert Marked(G, ALL_FLAGS) == {};
    NoneMarked(G, ALL_FLAGS);
  }

  // ---- Ancestry tests -----------------------------------------------------------------------

  /** in_merge_bases_many: is `commit` one of the references, or an ancestor of one? */
  method InMergeBasesMany(ghost G: set<Commit>, commit: Commit, reference: seq<Commit>) returns (ret: bool)
    requires History(G) && Unpainted(G) && commit in G && Elements(reference) <= G
    modifies G`flags
    ensures Restored(G)
    ensures ret ==> commit in ReachSet(G, Elements(reference))
    ensures AllParsable(G) ==> (ret <==> exists r :: r in reference && Reach(G, r, commit))
  {
    if !commit.parsable {
      return false;
    }
    var i := 0;
    while i < |reference|
      invariant 0 <= i <= |reference|
      modifies {}
    {
      if !reference[i].parsable {
        assert reference[i] in Elements(reference);
        return false;
      }
      i := i + 1;
    }
    var bases, parsed := PaintDownToCommon(G, commit, reference);
    assert PaintBounds(G, commit, Elements(reference)).Allow(commit, commit.flags);
    ret := Parent2 in commit.flags;
    ClearWalk(G, commit, reference);
    forall c | c in G ensures c.flags == old(c.flags) {
      assert forall f :: f in c.flags <==> f in old(c.flags);
    }
    ReachedByOne(G, reference, commit);
  }

  lemma ReachedByOne(G: set<Commit>, s: seq<Commit>, c: Commit)
    requires Elements(s) <= G && c in G
    ensures c in ReachSet(G, Elements(s)) <==> exists r :: r in s && Reach(G, r, c)
  {}

  /** is_descendant_of: does `commit` descend from some listed commit? An empty list counts as yes. */
  method IsDescendantOf(ghost G: set<Commit>, commit: Commit, withCommit: seq<Commit>) returns (ret: bool)
    requires History(G) && Unpainted(G) && commit in G && Elements(withCommit) <= G
    modifies G`flags
    ensures Restored(G)
    ensures AllParsable(G) ==> (ret <==> withCommit == [] || exists w :: w in withCommit && Reach(G, commit, w))
  {
    if withCommit == [] {
      return true;
    }
    ret := false;
    assert Elements([commit]) == {commit};
    var i := 0;
    while i < |withCommit|
      invariant 0 <= i <= |withCommit|
      invariant Restored(G) && !ret
      invariant AllParsable(G) ==> forall j :: 0 <= j < i ==> !Reach(G, commit, withCommit[j])
    {
      assert withCommit[i] in Elements(withCommit);
      ret := InMergeBasesMany(G, withCommit[i], [commit]);
      if ret {
        return;
      }
      i := i + 1;
    }
  }

  // ---- Merge bases --------------------------------------------------------------------------

  /** What merge_bases_many returns: all best common ancestors and nothing but common ancestors. */
  ghost predicate Bases(G: set<Commit>, one: Commit, twos: set<Commit>, list: seq<Commit>) {
    && ByDate(list) && Distinct(list)
    && (forall c :: c in list ==> c in G && Common(G, one, twos, c))
    && (forall c :: c in G && Best(G, one, twos, c) ==> c in list)
  }

  /** Only one best common ancestor when `one` is itself among the others. */
  lemma SelfIsBest(G: set<Commit>, one: Commit, twos: set<Commit>, c: Commit)
    requires History(G) && one in G && one in twos && c in G
    ensures Best(G, one, twos, c) <==> c == one
  {
    ReachSelf(G, one);
    if Common(G, one, twos, c) && Reach(G, c, one) {
      ReachAntisym(G, one, c);
    }
    assert Common(G, one, twos, one);
    assert Best(G, one, twos, one) by {
      forall d | d in G && Common(G, one, twos, d) && Reach(G, d, one) ensures d == one {
        ReachAntisym(G, one, d);
      }
    }
  }

  /** merge_bases_many: paint, then keep the results that are not stale. */
  method MergeBasesMany(ghost G: set<Commit>, one: Commit, twos: seq<Commit>)
    returns (result: seq<Commit>, ghost parsed: bool, ghost painted: bool)
    requires History(G) && Unpainted(G) && one in G && Elements(twos) <= G
    modifies G`flags
    ensures painted ==> OnlyGrown(G) && Marked(G, ALL_FLAGS) == ReachSet(Marked(G, ALL_FLAGS), {one} + Elements(twos))
    ensures !painted ==> Restored(G)
    ensures one in twos ==> result == [one] && parsed && !painted
    ensures twos == [] ==> result == if one.parsable then [one] else []
    ensures parsed && twos != [] ==> Bases(G, one, Elements(twos), result)
    ensures !parsed ==> result == [] && !AllParsable(G)
  {
    var i := 0;
    while i < |twos|
      invariant 0 <= i <= |twos| && one !in twos[..i]
      modifies {}
    {
      if one == twos[i] {
        SelfIsBestBases(G, one, Elements(twos));
        return [one], true, false;
      }
      i := i + 1;
    }
    if !one.parsable {
      return [], false, false;
    }
    i := 0;
    while i < |twos|
      invariant 0 <= i <= |twos|
      modifies {}
    {
      if !twos[i].parsable {
        assert twos[i] in Elements(twos);
        return [], false, false;
      }
      i := i + 1;
    }
    painted := true;
    var list;
    list, parsed := PaintDownToCommon(G, one, twos);
    assert forall c :: c in list ==> c in G;
    result := DropStale(list);
    if twos == [] {
      assert PaintBounds(G, one, {}).Allow(one, one.flags);
      assert Elements(twos) == {};
      assert one in result;
    }
  }

  lemma SelfIsBestBases(G: set<Commit>, one: Commit, twos: set<Commit>)
    requires History(G) && one in G && one in twos
    ensures Bases(G, one, twos, [one])
  {
    forall c | c in G ensures Best(G, one, twos, c) <==> c == one {
      SelfIsBest(G, one, twos, c);
    }
  }

  /** The results that are not stale, newest first. */
  method DropStale(list: seq<Commit>) returns (result: seq<Commit>)
    requires Distinct(list)
    ensures ByDate(result) && Distinct(result) && |result| <= |list|
    ensures forall c :: c in result <==> c in list && Stale !in c.flags
  {
    result := [];
    var i := 0;
    while i < |list|
      invariant 0 <= i <= |list|
      invariant ByDate(result) && Distinct(result) && |result| <= i
      invariant forall c :: c in result <==> c in list[..i] && Stale !in c.flags
    {
      assert list[..i + 1] == list[..i] + [list[i]];
      if Stale !in list[i].flags {
        ghost var k;
        var before := result;
        result, k := InsertByDate(list[i], before);
        InsertedOnce(before, list[i], k, result);
      }
      i := i + 1;
    }
    assert list[..i] == list;
  }
}
