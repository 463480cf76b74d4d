/** get_merge_bases_many, get_octopus_merge_bases and reduce_heads: exact answers from inexact walks. */
module Heads {
  import opened Basics
  import opened CommitGraph
  import opened CommitMarks
  import opened Painting
  import opened MergeBases
  import opened Redundancy

  /** Exactly the best common ancestors, newest first, without repeats. */
  ghost predicate ExactBases(G: set<Commit>, one: Commit, twos: set<Commit>, list: seq<Commit>) {
    && ByDate(list) && Distinct(list)
    && (forall c :: c in list ==> c in G)
    && (forall c :: c in G ==> (c in list <==> Best(G, one, twos, c)))
  }

  /** A single result needs no redundancy removal. */
  lemma SingleBaseIsExact(G: set<Commit>, one: Commit, twos: set<Commit>, list: seq<Commit>)
    requires History(G) && Bases(G, one, twos, list) && |list| <= 1
    ensures ExactBases(G, one, twos, list)
  {
    forall c | c in list ensures Best(G, one, twos, c) {
      var x := BestAbove(G, one, twos, c);
      assert x in list;
    }
  }

  lemma KeptBases(G: set<Commit>, one: Commit, twos: set<Commit>, list: seq<Commit>, red: seq<bool>, kept: seq<Commit>)
    requires History(G) && Bases(G, one, twos, list) && SoundMarks(G, list, red)
    requires ByDate(kept) && Distinct(kept)
    requires forall c :: c in kept <==> c in Select(list, red, false)
    ensures Bases(G, one, twos, kept)
    ensures (forall k :: 0 <= k < |list| ==> (red[k] <==> Redundant(G, list, list[k]))) ==>
      ExactBases(G, one, twos, kept)
  {
    SelectContents(list, red, false);
    forall c | c in list ensures !Redundant(G, list, c) <==> Best(G, one, twos, c) {
      HeadsAreBest(G, one, twos, list, c);
    }
    forall c | c in G && Best(G, one, twos, c) ensures c in kept {
      var k :| 0 <= k < |list| && list[k] == c;
      assert !red[k];
    }
  }

  /** Put commits into a date-ordered list one by one. */
  method SortByInsertion(commits: seq<Commit>) returns (list: seq<Commit>)
    ensures ByDate(list)
    ensures forall c :: c in list <==> c in commits
    ensures Distinct(commits) ==> Distinct(list)
  {
    list := [];
    var i := 0;
    while i < |commits|
      invariant 0 <= i <= |commits| && ByDate(list)
      invariant forall c :: c in list <==> c in commits[..i]
      invariant Distinct(commits) ==> Distinct(list)
    {
      assert commits[..i + 1] == commits[..i] + [commits[i]];
      var before := list;
      ghost var k;
      list, k := InsertByDate(commits[i], before);
      InsertedOnce(before, commits[i], k, list);
      i := i + 1;
    }
    assert commits[..i] == commits;
  }

  /** The second half of get_merge_bases_many_0: drop the results other results descend from. */
  method ReduceBases(ghost G: set<Commit>, one: Commit, twos: seq<Commit>, found: seq<Commit>)
    returns (result: seq<Commit>)
    requires History(G) && Unpainted(G) && Bases(G, one, Elements(twos), found) && found != []
    modifies G`flags
    ensures Restored(G) && Bases(G, one, Elements(twos), result)
    ensures AllParsable(G) ==> ExactBases(G, one, Elements(twos), result)
  {
    var rslt := new Commit[|found|](i requires 0 <= i < |found| => found[i]);
    assert rslt[..] == found;
    var cnt, red := RemoveRedundant(G, rslt);
    SelectContents(found, red, false);
    result := SortByInsertion(rslt[..cnt]);
    KeptBases(G, one, Elements(twos), found, red, result);
  }

  /**
   * get_merge_bases_many_0. With a parsable history and something to compare with, the result is
   * exactly the best common ancestors; `cleanup` decides whether marks may be left behind.
   */
  method GetMergeBasesMany0(ghost G: set<Commit>, one: Commit, twos: seq<Commit>, cleanup: bool)
    returns (result: seq<Commit>)
    requires History(G) && Unpainted(G) && one in G && Elements(twos) <= G
    modifies G`flags
    ensures AllParsable(G) && twos != [] ==> ExactBases(G, one, Elements(twos), result)
    ensures twos == [] ==> result == if one.parsable then [one] else []
    ensures twos != [] && result != [] ==> Bases(G, one, Elements(twos), result)
    ensures cleanup ==> Restored(G)
    ensures OnlyPainted(G)
  {
    ghost var parsed, painted;
    result, parsed, painted := MergeBasesMany(G, one, twos);
    if one in twos {
      SingleBaseIsExact(G, one, Elements(twos), result);
      return;
    }
    if |result| <= 1 {
      if parsed && twos != [] {
        SingleBaseIsExact(G, one, Elements(twos), result);
      }
      if cleanup {
        Cleanup(G, one, twos, painted);
        forall c | c in G ensures c.flags == old(c.flags) {
          assert forall f :: f in c.flags <==> f in old(c.flags);
        }
      }
      return;
    }
    Cleanup(G, one, twos, painted);
    forall c | c in G ensures c.flags == old(c.flags) {
      assert forall f :: f in c.flags <==> f in old(c.flags);
    }
    result := ReduceBases(G, one, twos, result);
  }

  /** clear_commit_marks(one) and clear_commit_marks_many(twos), whether or not the walk was begun. */
  method Cleanup(ghost G: set<Commit>, one: Commit, twos: seq<Commit>, ghost painted: bool)
    requires History(G) && one in G && Elements(twos) <= G
    requires painted ==> Marked(G, ALL_FLAGS) == ReachSet(Marked(G, ALL_FLAGS), {one} + Elements(twos))
    requires !painted ==> Unpainted(G)
    modifies G`flags
    ensures PaintRemoved(G)
  {
    if !painted {
      assert Marked(G, ALL_FLAGS) == {};
    }
    ClearWalk(G, one, twos);
  }

  /** get_merge_bases_many. */
  method GetMergeBasesMany(ghost G: set<Commit>, one: Commit, twos: seq<Commit>) returns (result: seq<Commit>)
    requires History(G) && Unpainted(G) && one in G && Elements(twos) <= G
    modifies G`flags
    ensures Restored(G)
    ensures AllParsable(G) && twos != [] ==> ExactBases(G, one, Elements(twos), result)
    ensures twos == [] ==> result == if one.parsable then [one] else []
  {
    result := GetMergeBasesMany0(G, one, twos, true);
  }

  /** get_merge_bases. */
  method GetMergeBases(ghost G: set<Commit>, one: Commit, two: Commit) returns (result: seq<Commit>)
    requires History(G) && Unpainted(G) && one in G && two in G
    modifies G`flags
    ensures Restored(G) && forall c :: c in result ==> c in G
    ensures AllParsable(G) ==> ExactBases(G, one, {two}, result)
  {
    assert Elements([two]) == {two};
    result := GetMergeBasesMany0(G, one, [two], true);
  }

  // ---- Octopus merge bases ------------------------------------------------------------------

  /** `c` is reached from every one of `tips`. */
  ghost predicate CommonToAll(G: set<Commit>, tips: seq<Commit>, c: Commit) {
    forall t :: t in tips ==> Reach(G, t, c)
  }

  /** Below the merge bases of two commits lies exactly what lies below both. */
  lemma BelowBases(G: set<Commit>, one: Commit, two: Commit, bases: seq<Commit>, c: Commit)
    requires History(G) && ExactBases(G, one, {two}, bases) && c in G
    ensures c in ReachSet(G, Elements(bases)) <==> Reach(G, one, c) && Reach(G, two, c)
  {
    if Reach(G, one, c) && Reach(G, two, c) {
      var x := BestAbove(G, one, {two}, c);
      assert x in Elements(bases);
    }
    if c in ReachSet(G, Elements(bases)) {
      var x :| x in Elements(bases) && Reach(G, x, c);
      ReachTrans(G, one, x, c);
      ReachTrans(G, two, x, c);
    }
  }

  /** `next` lists the best common ancestors of `tip` with each commit of `ret`, one list behind the other. */
  ghost predicate RoundOf(G: set<Commit>, tip: Commit, ret: seq<Commit>, next: seq<Commit>) {
    if ret == [] then next == []
    else exists k ::
      0 <= k <= |next| && LastPart(G, tip, ret[|ret| - 1], next, k) && RoundOf(G, tip, ret[..|ret| - 1], next[..k])
  }

  ghost predicate LastPart(G: set<Commit>, tip: Commit, one: Commit, next: seq<Commit>, k: int)
    requires 0 <= k <= |next|
  {
    ExactBases(G, tip, {one}, next[k..])
  }

  lemma RoundNext(G: set<Commit>, tip: Commit, ret: seq<Commit>, next: seq<Commit>, one: Commit, bases: seq<Commit>)
    requires RoundOf(G, tip, ret, next) && ExactBases(G, tip, {one}, bases)
    ensures RoundOf(G, tip, ret + [one], next + bases)
  {
    hide ExactBases;
    assert (next + bases)[|next|..] == bases && (next + bases)[..|next|] == next && (ret + [one])[..|ret|] == ret;
    assert LastPart(G, tip, one, next + bases, |next|);
  }

  /** What a round finds is best for the tip and some commit found before, and all that is best is found. */
  lemma {:induction false} RoundFinds(G: set<Commit>, tip: Commit, ret: seq<Commit>, next: seq<Commit>, c: Commit)
    requires RoundOf(G, tip, ret, next)
    ensures c in next <==> c in G && exists x :: x in ret && Best(G, tip, {x}, c)
    decreases |ret|
  {
    hide Best;
    if ret != [] {
      var n := |ret| - 1;
      var k :| 0 <= k <= |next| && LastPart(G, tip, ret[n], next, k) && RoundOf(G, tip, ret[..n], next[..k]);
      RoundFinds(G, tip, ret[..n], next[..k], c);
      assert next == next[..k] + next[k..] && ret == ret[..n] + [ret[n]];
    }
  }

  /** The round with one commit found before. */
  lemma RoundOfOne(G: set<Commit>, tip: Commit, one: Commit, next: seq<Commit>)
    requires RoundOf(G, tip, [one], next)
    ensures ExactBases(G, tip, {one}, next)
  {
    hide ExactBases;
    var k :| 0 <= k <= |next| && LastPart(G, tip, one, next, k) && RoundOf(G, tip, [one][..0], next[..k]);
    assert next == next[k..];
  }

  /** The lists found, from the first tip on, each by a round over the one before. */
  ghost predicate Octopus(G: set<Commit>, tips: seq<Commit>, rounds: seq<seq<Commit>>) {
    && |rounds| == |tips| && (tips != [] ==> rounds[0] == [tips[0]])
    && forall i {:trigger rounds[i]} :: 0 < i < |tips| ==> RoundOf(G, tips[i], rounds[i - 1], rounds[i])
  }

  lemma OctopusStep(G: set<Commit>, tip: Commit, ret: seq<Commit>, j: nat, sofar: seq<Commit>, bases: seq<Commit>)
    requires History(G) && tip in G && Elements(ret) <= G && j < |ret|
    requires ExactBases(G, tip, {ret[j]}, bases)
    requires ReachSet(G, Elements(sofar)) == ReachSet(G, Elements(ret[..j])) * ReachSet(G, {tip})
    ensures ReachSet(G, Elements(sofar + bases)) == ReachSet(G, Elements(ret[..j + 1])) * ReachSet(G, {tip})
  {
    ReachSetSplit(G, sofar, bases);
    assert ret[..j + 1] == ret[..j] + [ret[j]];
    ReachSetSplit(G, ret[..j], [ret[j]]);
    assert Elements([ret[j]]) == {ret[j]};
    forall c | c in G ensures c in ReachSet(G, Elements(bases)) <==> c in ReachSet(G, {ret[j]}) * ReachSet(G, {tip}) {
      BelowBases(G, tip, ret[j], bases, c);
    }
  }

  lemma ReachSetSplit(G: set<Commit>, a: seq<Commit>, b: seq<Commit>)
    ensures ReachSet(G, Elements(a + b)) == ReachSet(G, Elements(a)) + ReachSet(G, Elements(b))
  {
    ElementsConcat(a, b);
  }

  lemma NothingBelow(G: set<Commit>)
    ensures ReachSet(G, Elements([])) == {} && Elements([]) == {}
  {}

  /** Below what a round finds lies exactly what lies below the tip and something found before. */
  lemma {:induction false} RoundBelow(G: set<Commit>, tip: Commit, ret: seq<Commit>, next: seq<Commit>)
    requires History(G) && tip in G && Elements(ret) <= G && RoundOf(G, tip, ret, next)
    ensures Elements(next) <= G
    ensures ReachSet(G, Elements(next)) == ReachSet(G, Elements(ret)) * ReachSet(G, {tip})
    decreases |ret|
  {
    hide ReachSet, History, Best, Distinct, ByDate;
    if ret == [] {
      NothingBelow(G);
    } else {
      var n := |ret| - 1;
      var k :| 0 <= k <= |next| && LastPart(G, tip, ret[n], next, k) && RoundOf(G, tip, ret[..n], next[..k]);
      assert next == next[..k] + next[k..] && ret[..n + 1] == ret;
      forall c | c in Elements(ret[..n]) ensures c in G {
        assert c in Elements(ret);
      }
      RoundBelow(G, tip, ret[..n], next[..k]);
      OctopusStep(G, tip, ret, n, next[..k], next[k..]);
      ElementsConcat(next[..k], next[k..]);
      assert forall c :: c in Elements(next[k..]) ==> c in G;
    }
  }

  /** Below what the i-th round finds lies exactly what lies below all tips up to there. */
  lemma {:induction false} OctopusBelow(G: set<Commit>, tips: seq<Commit>, rounds: seq<seq<Commit>>, i: nat)
    requires History(G) && Elements(tips) <= G && Octopus(G, tips, rounds) && i < |tips|
    ensures Elements(rounds[i]) <= G
    ensures forall c :: c in G ==> (c in ReachSet(G, Elements(rounds[i])) <==> CommonToAll(G, tips[..i + 1], c))
  {
    assert tips[i] in Elements(tips);
    hide ReachSet, RoundOf, History, Reach;
    if i == 0 {
      assert Elements([tips[0]]) == {tips[0]};
      CommonFirst(G, tips);
    } else {
      OctopusBelow(G, tips, rounds, i - 1);
      assert tips[..i - 1 + 1] == tips[..i];
      RoundBelow(G, tips[i], rounds[i - 1], rounds[i]);
      CommonNext(G, tips, i, ReachSet(G, Elements(rounds[i - 1])));
    }
  }

  lemma CommonFirst(G: set<Commit>, tips: seq<Commit>)
    requires tips != []
    ensures forall c :: c in G ==> (c in ReachSet(G, {tips[0]}) <==> CommonToAll(G, tips[..1], c))
  {
    assert forall c :: c in tips[..1] <==> c == tips[0];
  }

  lemma CommonNext(G: set<Commit>, tips: seq<Commit>, i: nat, below: set<Commit>)
    requires i < |tips| && forall c :: c in G ==> (c in below <==> CommonToAll(G, tips[..i], c))
    ensures forall c :: c in G ==> (c in below * ReachSet(G, {tips[i]}) <==> CommonToAll(G, tips[..i + 1], c))
  {
    assert tips[..i + 1] == tips[..i] + [tips[i]];
  }

  /** One round of the octopus: the bases of `tip` with each commit found so far, in a row. */
  method OctopusRound(ghost G: set<Commit>, tip: Commit, ret: seq<Commit>) returns (next: seq<Commit>)
    requires History(G) && Unpainted(G) && tip in G && Elements(ret) <= G
    modifies G`flags
    ensures Restored(G) && Elements(next) <= G
    ensures AllParsable(G) ==> RoundOf(G, tip, ret, next)
  {
    next := [];
    NothingBelow(G);
    hide ExactBases, RoundOf, AllParsable;
    NothingFound(G, tip);
    assert ret[..0] == [];
    var j := 0;
    while j < |ret|
      invariant 0 <= j <= |ret|
      invariant Restored(G) && Elements(next) <= G
      invariant AllParsable(G) ==> RoundOf(G, tip, ret[..j], next)
    {
      assert ret[j] in Elements(ret);
      var bases := GetMergeBases(G, tip, ret[j]);
      assert ret[..j + 1] == ret[..j] + [ret[j]];
      if AllParsable(G) {
        RoundNext(G, tip, ret[..j], next, ret[j], bases);
      }
      ElementsConcat(next, bases);
      next := next + bases;
      j := j + 1;
    }
    assert ret[..j] == ret;
  }

  lemma NothingFound(G: set<Commit>, tip: Commit)
    ensures RoundOf(G, tip, [], [])
  {}

  /** One more round. */
  lemma OctopusNext(G: set<Commit>, tips: seq<Commit>, i: nat, rounds: seq<seq<Commit>>, next: seq<Commit>)
    requires 0 < i < |tips| && Octopus(G, tips[..i], rounds) && RoundOf(G, tips[i], rounds[i - 1], next)
    ensures Octopus(G, tips[..i + 1], rounds + [next])
  {
    hide RoundOf;
    var more := rounds + [next];
    forall k {:trigger more[k]} | 0 < k < i + 1 ensures RoundOf(G, tips[..i + 1][k], more[k - 1], more[k]) {
      if k < i {
        assert tips[..i + 1][k] == tips[..i][k] && more[k] == rounds[k] && more[k - 1] == rounds[k - 1];
      }
    }
  }

  lemma OctopusStarts(G: set<Commit>, tips: seq<Commit>)
    requires tips != []
    ensures Octopus(G, tips[..1], [[tips[0]]])
  {}

  /**
   * get_octopus_merge_bases: round after round the best common ancestors of a tip with each commit found
   * before; below the result lies exactly what lies below every input.
   */
  method GetOctopusMergeBases(ghost G: set<Commit>, tips: seq<Commit>)
    returns (ret: seq<Commit>, ghost rounds: seq<seq<Commit>>)
    requires History(G) && Unpainted(G) && Elements(tips) <= G
    modifies G`flags
    ensures Restored(G) && Elements(ret) <= G
    ensures tips == [] ==> ret == []
    ensures AllParsable(G) && tips != [] ==> Octopus(G, tips, rounds) && ret == rounds[|rounds| - 1]
    ensures AllParsable(G) && |tips| == 2 ==> ExactBases(G, tips[1], {tips[0]}, ret)
    ensures AllParsable(G) && tips != [] ==>
      forall c :: c in G ==> (c in ReachSet(G, Elements(ret)) <==> CommonToAll(G, tips, c))
  {
    rounds := [];
    if tips == [] {
      return [], [];
    }
    ret := [tips[0]];
    rounds := [ret];
    OctopusStarts(G, tips);
    assert tips[0] in Elements(tips) && Elements(ret) == {tips[0]};
    hide AllParsable, Octopus;
    var i := 1;
    while i < |tips|
      invariant 1 <= i <= |tips| && |rounds| == i && ret == rounds[i - 1]
      invariant Restored(G) && Elements(ret) <= G
      invariant AllParsable(G) ==> Octopus(G, tips[..i], rounds)
    {
      assert tips[i] in Elements(tips);
      ret := OctopusRound(G, tips[i], ret);
      if AllParsable(G) {
        OctopusNext(G, tips, i, rounds, ret);
      }
      rounds := rounds + [ret];
      i := i + 1;
    }
    assert tips[..i] == tips;
    if AllParsable(G) {
      OctopusDone(G, tips, rounds, ret);
    }
  }

  lemma OctopusDone(G: set<Commit>, tips: seq<Commit>, rounds: seq<seq<Commit>>, ret: seq<Commit>)
    requires History(G) && Elements(tips) <= G && tips != [] && Octopus(G, tips, rounds) && ret == rounds[|rounds| - 1]
    ensures |tips| == 2 ==> ExactBases(G, tips[1], {tips[0]}, ret)
    ensures forall c :: c in G ==> (c in ReachSet(G, Elements(ret)) <==> CommonToAll(G, tips, c))
  {
    hide ReachSet, RoundOf, ExactBases, History, CommonToAll;
    OctopusBelow(G, tips, rounds, |tips| - 1);
    assert tips[..|tips| - 1 + 1] == tips;
    if |tips| == 2 {
      assert rounds[1] == ret && rounds[0] == [tips[0]];
      RoundOfOne(G, tips[1], tips[0], ret);
    }
  }

  // ---- Independent heads --------------------------------------------------------------------

  /** The first occurrences in `s`, in order. */
  function Unique(s: seq<Commit>): seq<Commit> {
    if s == [] then []
    else
      var u := Unique(s[..|s| - 1]);
      if s[|s| - 1] in u then u else u + [s[|s| - 1]]
  }

  lemma {:induction false} UniqueContents(s: seq<Commit>)
    ensures forall c :: c in Unique(s) <==> c in s
    ensures Distinct(Unique(s)) && |Unique(s)| <= |s|
  {
    if s != [] {
      var n := |s| - 1;
      UniqueContents(s[..n]);
      assert s == s[..n] + [s[n]];
    }
  }

  lemma UniqueNext(s: seq<Commit>, k: nat)
    requires k < |s|
    ensures Unique(s[..k + 1]) == if s[k] in s[..k] then Unique(s[..k]) else Unique(s[..k]) + [s[k]]
  {
    assert s[..k + 1][..k] == s[..k];
    UniqueContents(s[..k]);
  }

  /** Only the heads may carry a paint flag, and only STALE. */
  ghost predicate StaleOnHeads(G: set<Commit>, heads: seq<Commit>)
    reads G
  {
    forall c, f :: c in G && f in c.flags ==> f !in ALL_FLAGS || (f == Stale && c in heads)
  }

  /** Exactly the commits of `S` are stale, no commit carries another paint flag, other flags are as before. */
  twostate predicate StaleIs(G: set<Commit>, S: set<Commit>)
    reads G
  {
    && OnlyPainted(G)
    && (forall c :: c in G ==> (Stale in c.flags <==> c in S))
    && (forall c :: c in G ==> Parent1 !in c.flags && Parent2 !in c.flags && Result !in c.flags)
  }

  /** First loop: no head is stale any more. */
  method ClearStale(ghost G: set<Commit>, heads: seq<Commit>)
    requires Elements(heads) <= G && StaleOnHeads(G, heads)
    modifies G`flags
    ensures StaleIs(G, {})
  {
    assert Parent1 in ALL_FLAGS && Parent2 in ALL_FLAGS && Result in ALL_FLAGS && Stale in ALL_FLAGS;
    var k := 0;
    while k < |heads|
      invariant 0 <= k <= |heads|
      invariant OnlyPainted(G)
      invariant forall c :: c in G && Stale in c.flags ==> c in heads && c !in heads[..k]
      invariant forall c :: c in G ==> Parent1 !in c.flags && Parent2 !in c.flags && Result !in c.flags
    {
      assert heads[k] in Elements(heads);
      assert heads[..k + 1] == heads[..k] + [heads[k]];
      heads[k].flags := heads[k].flags - {Stale};
      k := k + 1;
    }
    assert heads[..k] == heads;
  }

  /** Second loop: mark each head once and count them. */
  method CountHeads(ghost G: set<Commit>, heads: seq<Commit>) returns (num: nat)
    requires Elements(heads) <= G
    requires forall c :: c in G ==>
      Stale !in c.flags && Parent1 !in c.flags && Parent2 !in c.flags && Result !in c.flags
    modifies G`flags
    ensures StaleIs(G, Elements(heads)) && num == |Unique(heads)|
  {
    assert Parent1 in ALL_FLAGS && Parent2 in ALL_FLAGS && Result in ALL_FLAGS && Stale in ALL_FLAGS;
    num := 0;
    var k := 0;
    while k < |heads|
      invariant 0 <= k <= |heads| && num == |Unique(heads[..k])|
      invariant StaleIs(G, Elements(heads[..k]))
    {
      ElementsNext(heads, k);
      UniqueNext(heads, k);
      if Stale !in heads[k].flags {
        heads[k].flags := heads[k].flags + {Stale};
        num := num + 1;
      }
      k := k + 1;
    }
    assert heads[..k] == heads;
  }

  /** Take the mark off one head. */
  method Unstale(ghost G: set<Commit>, head: Commit, ghost left: set<Commit>)
    requires head in G
    requires forall c :: c in G ==> (Stale in c.flags <==> c in left)
    modifies head`flags
    ensures head.flags == old(head.flags) - {Stale}
    ensures forall c :: c in G ==> (Stale in c.flags <==> c in left - {head})
  {
    head.flags := head.flags - {Stale};
  }

  /** Third loop: collect each head where its mark is found, taking the mark off. */
  method CollectHeads(ghost G: set<Commit>, heads: seq<Commit>) returns (found: seq<Commit>)
    requires Elements(heads) <= G
    requires forall c :: c in G ==> (Stale in c.flags <==> c in heads)
    requires forall c :: c in G ==> Parent1 !in c.flags && Parent2 !in c.flags && Result !in c.flags
    modifies G`flags
    ensures found == Unique(heads) && StaleIs(G, {})
  {
    found := [];
    var k := 0;
    ghost var left := Elements(heads);
    while k < |heads|
      invariant 0 <= k <= |heads| && found == Unique(heads[..k])
      invariant left == Elements(heads) - Elements(heads[..k])
      invariant StaleIs(G, Elements(heads) - Elements(heads[..k]))
    {
      ElementsNext(heads, k);
      UniqueNext(heads, k);
      if Stale in heads[k].flags {
        assert heads[k] in left;
        found := found + [heads[k]];
        Unstale(G, heads[k], left);
      }
      left := left - {heads[k]};
      k := k + 1;
    }
    assert heads[..k] == heads;
  }

  /**
   * reduce_heads: the heads no other head descends from, each once, in the order they were first
   * given. `red` says which of the distinct heads were dropped.
   */
  method ReduceHeads(ghost G: set<Commit>, heads: seq<Commit>) returns (result: seq<Commit>, ghost red: seq<bool>)
    requires History(G) && Elements(heads) <= G && StaleOnHeads(G, heads)
    modifies G`flags
    ensures Unpainted(G) && OnlyPainted(G)
    ensures SoundMarks(G, Unique(heads), red) && result == Select(Unique(heads), red, false) && Distinct(result)
    ensures forall c :: c in result ==> c in heads
    ensures AllParsable(G) ==> forall c :: c in heads ==> (c in result <==> !Redundant(G, heads, c))
  {
    if heads == [] {
      return [], [];
    }
    var commits := UniqueHeads(G, heads);
    var filled;
    filled, red := RemoveRedundant(G, commits);
    KeptHeads(G, heads, red);
    result := commits[..filled];
  }

  /** The three loops that make the heads distinct. */
  method UniqueHeads(ghost G: set<Commit>, heads: seq<Commit>) returns (commits: array<Commit>)
    requires Elements(heads) <= G && StaleOnHeads(G, heads) && heads != []
    modifies G`flags
    ensures Unpainted(G) && OnlyPainted(G)
    ensures fresh(commits) && commits[..] == Unique(heads) && commits.Length > 0
    ensures Elements(commits[..]) <= G && Distinct(commits[..])
  {
    ClearStale(G, heads);
    var num := CountHeads(G, heads);
    var found := CollectHeads(G, heads);
    commits := Copied(found);
    UniqueContents(heads);
    hide Unique, Distinct;
    assert heads[0] in found && commits[..] == found;
    assert forall c :: c in commits[..] ==> c in Elements(heads);
  }

  /** A new array with the contents of `s`. */
  method Copied(s: seq<Commit>) returns (copy: array<Commit>)
    ensures fresh(copy) && copy[..] == s
  {
    copy := new Commit[|s|](i requires 0 <= i < |s| => s[i]);
  }

  lemma RedundantAmongUnique(G: set<Commit>, heads: seq<Commit>, c: Commit)
    ensures Redundant(G, Unique(heads), c) <==> Redundant(G, heads, c)
  {
    UniqueContents(heads);
    if d :| d in heads && d != c && Reach(G, d, c) {
      assert d in Unique(heads);
    }
  }

  lemma KeptHeads(G: set<Commit>, heads: seq<Commit>, red: seq<bool>)
    requires |red| == |Unique(heads)|
    ensures Distinct(Select(Unique(heads), red, false))
    ensures forall c :: c in Select(Unique(heads), red, false) ==> c in heads
    ensures (forall k :: 0 <= k < |red| ==> (red[k] <==> Redundant(G, Unique(heads), Unique(heads)[k]))) ==>
      forall c :: c in heads ==> (c in Select(Unique(heads), red, false) <==> !Redundant(G, heads, c))
  {
    var u := Unique(heads);
    UniqueContents(heads);
    SelectContents(u, red, false);
    if forall k :: 0 <= k < |red| ==> (red[k] <==> Redundant(G, u, u[k])) {
      forall c | c in heads ensures c in Select(u, red, false) <==> !Redundant(G, heads, c) {
        RedundantAmongUnique(G, heads, c);
        var k :| 0 <= k < |u| && u[k] == c;
      }
    }
  }
}
