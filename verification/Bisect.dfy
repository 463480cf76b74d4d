/** Bisection: weighing commits by what they reach and picking the one that halves best (bisect.c). */
module Bisect {
  import opened Basics
  import opened CommitGraph
  import opened CommitMarks

  // ---- Weights ------------------------------------------------------------------------------

  /** The weight of `c`: how many tree-changing commits of `L` it reaches, itself included. */
  ghost function Weight(L: set<Commit>, same: set<Commit>, c: Commit): nat {
    Weigh(ReachSet(L, {c}), same)
  }

  /** The number of commits of `S` that change the tree. */
  ghost function Weigh(S: set<Commit>, same: set<Commit>): nat {
    |set c | c in S && c !in same|
  }

  lemma WeighUnion(A: set<Commit>, B: set<Commit>, same: set<Commit>)
    requires A !! B
    ensures Weigh(A + B, same) == Weigh(A, same) + Weigh(B, same)
  {
    var a, b := set c | c in A && c !in same, set c | c in B && c !in same;
    assert (set c | c in A + B && c !in same) == a + b;
  }

  lemma WeighOne(c: Commit, same: set<Commit>)
    ensures Weigh({c}, same) == if c in same then 0 else 1
  {
    WeighIs({c}, same, if c in same then {} else {c});
  }

  lemma WeighIs(S: set<Commit>, same: set<Commit>, T: set<Commit>)
    requires forall x :: x in S ==> (x in T <==> x !in same)
    requires T <= S
    ensures Weigh(S, same) == |T|
  {
    assert T == set c | c in S && c !in same;
  }

  /** From `c` one reaches `c` and whatever the parents reach without it. */
  lemma ReachPeel(V: set<Commit>, c: Commit)
    requires c in V
    ensures ReachSet(V, {c}) == {c} + ReachSet(V - {c}, Elements(c.parents))
  {
    var W := V - {c};
    var R := {c} + ReachSet(W, Elements(c.parents));
    ReachSetClosed(W, Elements(c.parents));
    ReachSetClosed(V, {c});
    assert ClosedIn(V, R);
    forall x | x in ReachSet(V, {c}) ensures x in R {
      ReachClosed(V, R, c, x);
    }
    forall x | x in ReachSet(W, Elements(c.parents)) ensures x in ReachSet(V, {c}) {
      var p :| p in Elements(c.parents) && Reach(W, p, x);
      ReachSubset(W, V, p, x);
      ReachVia(V, c, p, x);
    }
  }

  lemma ReachSetOutside(V: set<Commit>, c: Commit)
    requires c !in V
    ensures ReachSet(V, {c}) == {}
  {
    forall x | x in ReachSet(V, {c}) ensures false {
      ReachEnds(V, c, x);
    }
  }

  /** Without parents in the list a commit reaches itself only. */
  lemma LeafWeight(L: set<Commit>, same: set<Commit>, c: Commit)
    requires c in L && forall p :: p in c.parents ==> p !in L
    ensures Weight(L, same, c) == if c in same then 0 else 1
  {
    ReachSelf(L, c);
    forall x | x in ReachSet(L, {c}) ensures x in {c} {
      ReachClosed(L, {c}, c, x);
    }
    assert ReachSet(L, {c}) == {c};
    WeighOne(c, same);
  }

  /** With a single listed parent a commit reaches one commit more than that parent. */
  lemma SingleParentReach(L: set<Commit>, c: Commit, q: Commit)
    requires Acyclic(L) && c in L && q in L && q in c.parents && forall p :: p in c.parents && p in L ==> p == q
    ensures ReachSet(L, {c}) == {c} + ReachSet(L, {q}) && c !in ReachSet(L, {q})
  {
    forall x | x in ReachSet(L, {c}) ensures x in {c} + ReachSet(L, {q}) {
      if x != c {
        var p := ReachFirst(L, c, x);
      }
    }
    ReachSelf(L, c);
    forall x | x in ReachSet(L, {q}) ensures x in ReachSet(L, {c}) {
      ReachVia(L, c, q, x);
    }
  }

  lemma SingleParentWeight(L: set<Commit>, same: set<Commit>, c: Commit, q: Commit)
    requires Acyclic(L) && c in L && q in L && q in c.parents && forall p :: p in c.parents && p in L ==> p == q
    ensures Weight(L, same, c) == Weight(L, same, q) + if c in same then 0 else 1
  {
    SingleParentReach(L, c, q);
    WeighUnion({c}, ReachSet(L, {q}), same);
    WeighOne(c, same);
  }

  // ---- Counting by marking ------------------------------------------------------------------

  /** The commits a count may still enter. */
  ghost function Open(G: set<Commit>): set<Commit>
    reads G
  {
    set c | c in G && Uninteresting !in c.flags && Counted !in c.flags
  }

  ghost function Same(G: set<Commit>): set<Commit>
    reads G
  {
    set c | c in G && TreeSame in c.flags
  }

  /** Only commits that were open change, and they only gain the COUNTED mark. */
  twostate predicate OnlyCounted(G: set<Commit>)
    reads G
  {
    && Open(G) <= old(Open(G))
    && (forall c :: c in G ==> c.flags - {Counted} == old(c.flags) - {Counted})
    && (forall c :: c in G && c !in old(Open(G)) ==> c.flags == old(c.flags))
  }

  /**
   * Where a count stands: of `goal`, the commits `done` are marked, weighing `nr`; the rest is what
   * `todo` still reaches through open commits.
   */
  ghost predicate Count(same: set<Commit>, goal: set<Commit>, V: set<Commit>, done: set<Commit>, open: set<Commit>,
      todo: set<Commit>, nr: nat)
  {
    done <= V && open == V - done && goal == done + ReachSet(open, todo) && nr == Weigh(done, same)
  }

  lemma CountSkip(same: set<Commit>, goal: set<Commit>, V: set<Commit>, done: set<Commit>,
      open: set<Commit>, c: Commit, nr: nat)
    requires Count(same, goal, V, done, open, {c}, nr) && c !in open
    ensures goal == done && open == V - goal
  {
    ReachSetOutside(open, c);
  }

  lemma CountEnter(same: set<Commit>, goal: set<Commit>, V: set<Commit>, done: set<Commit>,
      open: set<Commit>, c: Commit, nr: nat)
    requires Count(same, goal, V, done, open, {c}, nr) && c in open
    ensures Count(same, goal, V, done + {c}, open - {c}, Elements(c.parents), nr + if c in same then 0 else 1)
  {
    ReachPeel(open, c);
    WeighUnion(done, {c}, same);
    WeighOne(c, same);
  }

  lemma CountBranch(same: set<Commit>, goal: set<Commit>, V: set<Commit>, done: set<Commit>,
      open: set<Commit>, p: Commit, todo: set<Commit>, nr: nat)
    requires Count(same, goal, V, done, open, {p} + todo, nr)
    ensures var newly := ReachSet(open, {p});
      Count(same, goal, V, done + newly, open - newly, todo, nr + Weigh(newly, same))
  {
    ClearTwice(open, {p}, todo);
    WeighUnion(done, ReachSet(open, {p}), same);
  }

  lemma NothingToDo(same: set<Commit>, goal: set<Commit>, V: set<Commit>, done: set<Commit>,
      open: set<Commit>, nr: nat)
    requires Count(same, goal, V, done, open, {}, nr)
    ensures goal == done && open == V - goal
  {}

  /** `commit.flags |= COUNTED`. */
  method SetCounted(ghost G: set<Commit>, commit: Commit)
    requires commit in Open(G)
    modifies commit`flags
    ensures OnlyCounted(G)
    ensures Open(G) == old(Open(G)) - {commit} && Same(G) == old(Same(G))
  {
    commit.flags := commit.flags + {Counted};
  }

  /**
   * count_distance: mark everything open that `entry` reaches through open commits, and return how
   * many of the newly marked commits change the tree.
   */
  method CountDistance(ghost G: set<Commit>, entry: Commit) returns (nr: nat)
    requires History(G) && entry in G
    modifies G`flags
    ensures OnlyCounted(G) && Same(G) == old(Same(G))
    ensures Open(G) == old(Open(G) - ReachSet(Open(G), {entry}))
    ensures nr == Weigh(old(ReachSet(Open(G), {entry})), old(Same(G)))
    decreases Open(G), 1, 0
  {
    ghost var V, same, goal := Open(G), Same(G), ReachSet(Open(G), {entry});
    ghost var done, open := {}, V;
    var commit := entry;
    nr := 0;
    while true
      invariant commit in G && Count(same, goal, V, done, open, {commit}, nr)
      invariant OnlyCounted(G) && open == Open(G) && Same(G) == same
      decreases open
    {
      if Uninteresting in commit.flags || Counted in commit.flags {
        CountSkip(same, goal, V, done, open, commit, nr);
        return;
      }
      CountEnter(same, goal, V, done, open, commit, nr);
      if TreeSame !in commit.flags {
        nr := nr + 1;
      }
      done := done + {commit};
      nr, done, open := CountBelow(G, commit, same, goal, V, done, nr);
      if commit.parents == [] {
        return;
      }
      commit := commit.parents[0];
    }
  }

  /** Mark the commit and count below every parent but the first; without parents the count is over. */
  method CountBelow(ghost G: set<Commit>, commit: Commit, ghost same: set<Commit>, ghost goal: set<Commit>,
      ghost V: set<Commit>, ghost done0: set<Commit>, nr0: nat)
    returns (nr: nat, ghost done: set<Commit>, ghost open: set<Commit>)
    requires History(G) && commit in Open(G)
    requires Count(same, goal, V, done0, Open(G) - {commit}, Elements(commit.parents), nr0) && Same(G) == same
    modifies G`flags
    ensures commit.parents == [] ==> goal == done && open == V - goal && nr == Weigh(goal, same)
    ensures commit.parents != [] ==> Count(same, goal, V, done, open, {commit.parents[0]}, nr)
    ensures OnlyCounted(G) && Open(G) == open && Same(G) == same && open < old(Open(G))
    decreases Open(G), 0
  {
    nr, done, open := nr0, done0, Open(G) - {commit};
    SetCounted(G, commit);
    if commit.parents == [] {
      assert Elements(commit.parents) == {};
      NothingToDo(same, goal, V, done, open, nr);
    } else {
      nr, done, open := CountOtherParents(G, commit, same, goal, V, done, open, nr);
    }
  }

  lemma OtherParents(parents: seq<Commit>, k: nat)
    requires 1 <= k <= |parents|
    ensures k == 1 ==> {parents[0]} + Elements(parents[k..]) == Elements(parents)
    ensures k < |parents| ==>
      {parents[0]} + Elements(parents[k..]) == {parents[k]} + ({parents[0]} + Elements(parents[k + 1..]))
    ensures k == |parents| ==> {parents[0]} + Elements(parents[k..]) == {parents[0]}
  {
    if k == 1 {
      assert parents == [parents[0]] + parents[1..];
      ElementsConcat([parents[0]], parents[1..]);
      assert Elements([parents[0]]) == {parents[0]};
    }
    if k < |parents| {
      assert parents[k..] == [parents[k]] + parents[k + 1..];
      ElementsConcat([parents[k]], parents[k + 1..]);
      assert Elements([parents[k]]) == {parents[k]};
    }
  }

  /** The inner loop: count below every parent but the first. */
  method CountOtherParents(ghost G: set<Commit>, commit: Commit, ghost same: set<Commit>, ghost goal: set<Commit>,
      ghost V: set<Commit>, ghost done0: set<Commit>, ghost open0: set<Commit>, nr0: nat)
    returns (nr: nat, ghost done: set<Commit>, ghost open: set<Commit>)
    requires History(G) && commit in G && commit.parents != []
    requires Count(same, goal, V, done0, open0, Elements(commit.parents), nr0)
    requires Open(G) == open0 && Same(G) == same
    modifies G`flags
    ensures Count(same, goal, V, done, open, {commit.parents[0]}, nr)
    ensures OnlyCounted(G) && Open(G) == open && Same(G) == same
    ensures open <= open0
    decreases open0, 2
  {
    nr, done, open := nr0, done0, open0;
    ghost var todo := Elements(commit.parents);
    var k := 1;
    OtherParents(commit.parents, 1);
    while k < |commit.parents|
      invariant 1 <= k <= |commit.parents| && todo == {commit.parents[0]} + Elements(commit.parents[k..])
      invariant Count(same, goal, V, done, open, todo, nr)
      invariant OnlyCounted(G) && Open(G) == open && Same(G) == same
      invariant open <= open0
    {
      OtherParents(commit.parents, k);
      todo := {commit.parents[0]} + Elements(commit.parents[k + 1..]);
      nr, done, open := CountParent(G, commit.parents[k], todo, same, goal, V, done, open, open0, nr);
      k := k + 1;
    }
    OtherParents(commit.parents, k);
  }

  /** Count below one more parent. */
  method CountParent(ghost G: set<Commit>, p: Commit, ghost todo: set<Commit>, ghost same: set<Commit>,
      ghost goal: set<Commit>, ghost V: set<Commit>, ghost done0: set<Commit>, ghost open0: set<Commit>,
      ghost bound: set<Commit>, nr0: nat)
    returns (nr: nat, ghost done: set<Commit>, ghost open: set<Commit>)
    requires History(G) && p in G && Open(G) == open0 <= bound && Same(G) == same
    requires Count(same, goal, V, done0, open0, {p} + todo, nr0)
    modifies G`flags
    ensures Count(same, goal, V, done, open, todo, nr)
    ensures OnlyCounted(G) && Open(G) == open && Same(G) == same && open <= bound
    decreases bound, 1, 1
  {
    CountBranch(same, goal, V, done0, open0, p, todo, nr0);
    ghost var newly := ReachSet(open0, {p});
    assert open0 == bound || open0 < bound;
    var more := CountDistance(G, p);
    nr, done, open := nr0 + more, done0 + newly, open0 - newly;
  }

  // ---- The list to bisect -------------------------------------------------------------------

  /** The list holds interesting, unmarked commits, each once, and with a commit all its interesting parents. */
  ghost predicate Bisectable(G: set<Commit>, list: seq<Commit>)
    reads G
  {
    && History(G) && Distinct(list) && Elements(list) <= Open(G)
    && forall c, p :: c in list && p in c.parents && p in G && Uninteresting !in p.flags ==> p in list
  }

  /** Every commit of `G` has the flags it started with. */
  twostate predicate FlagsKept(G: set<Commit>)
    reads G
  {
    forall c :: c in G ==> c.flags == old(c.flags)
  }

  /** Counting from a listed commit stays inside the list. */
  lemma CountStaysListed(G: set<Commit>, list: seq<Commit>, c: Commit)
    requires Bisectable(G, list) && c in list
    ensures ReachSet(Open(G), {c}) == ReachSet(Elements(list), {c}) <= Elements(list)
  {
    var L, V := Elements(list), Open(G);
    ReachSetClosed(L, {c});
    forall x | x in ReachSet(V, {c}) ensures x in ReachSet(L, {c}) {
      ReachClosed(V, ReachSet(L, {c}), c, x);
    }
    forall x | x in ReachSet(L, {c}) ensures x in ReachSet(V, {c}) {
      ReachSubset(L, V, c, x);
    }
  }

  /** clear_distance. */
  method ClearDistance(ghost G: set<Commit>, list: seq<Commit>)
    requires Elements(list) <= G
    modifies G`flags
    ensures forall c :: c in G ==> c.flags == if c in list then old(c.flags) - {Counted} else old(c.flags)
  {
    var k := 0;
    while k < |list|
      invariant 0 <= k <= |list|
      invariant forall c :: c in G ==> c.flags == if c in list[..k] then old(c.flags) - {Counted} else old(c.flags)
    {
      assert list[..k + 1] == list[..k] + [list[k]];
      assert list[k] in Elements(list);
      list[k].flags := list[k].flags - {Counted};
      k := k + 1;
    }
    assert list[..k] == list;
  }

  lemma SameButCounted(a: set<Flag>, b: set<Flag>)
    requires a - {Counted} == b - {Counted} && (Counted in a <==> Counted in b)
    ensures a == b
  {
    assert a == if Counted in a then (a - {Counted}) + {Counted} else a - {Counted};
    assert b == if Counted in b then (b - {Counted}) + {Counted} else b - {Counted};
  }

  /** Counting from a listed commit, seen from the list: marks appear on listed commits only. */
  method CountListed(ghost G: set<Commit>, list: seq<Commit>, c: Commit) returns (w: nat)
    requires Bisectable(G, list) && c in list
    modifies G`flags
    ensures forall x :: x in G && x !in list ==> x.flags == old(x.flags)
    ensures forall x :: x in list ==> x.flags - {Counted} == old(x.flags)
    ensures w == Weight(Elements(list), old(Same(G)), c)
  {
    CountStaysListed(G, list, c);
    assert c in Elements(list);
    ghost var V := Open(G);
    w := CountDistance(G, c);
    forall x | x in G && x !in list ensures x.flags == old(x.flags) {
      if x in V {
        assert x in Open(G);
        SameButCounted(x.flags, old(x.flags));
      }
    }
    forall x | x in list ensures x.flags - {Counted} == old(x.flags) {
      assert x in Elements(list) && x in V;
      assert old(x.flags) - {Counted} == old(x.flags);
    }
  }

  /** The exact weight of one commit, found by marking; the marks are gone afterwards. */
  method WeighByCounting(ghost G: set<Commit>, list: seq<Commit>, c: Commit) returns (w: nat)
    requires Bisectable(G, list) && c in list
    modifies G`flags
    ensures FlagsKept(G)
    ensures w == Weight(Elements(list), old(Same(G)), c)
  {
    assert Elements(list) <= G;
    w := CountListed(G, list, c);
    ClearDistance(G, list);
  }

  // ---- Classification by interesting parents ------------------------------------------------

  /** How many entries of `ps` are in `L`. */
  ghost function Listed(ps: seq<Commit>, L: set<Commit>): nat {
    if ps == [] then 0 else Listed(ps[..|ps| - 1], L) + if ps[|ps| - 1] in L then 1 else 0
  }

  lemma {:induction false} ListedNone(ps: seq<Commit>, L: set<Commit>)
    ensures Listed(ps, L) == 0 <==> forall p :: p in ps ==> p !in L
  {
    if ps != [] {
      var n := |ps| - 1;
      ListedNone(ps[..n], L);
      assert ps == ps[..n] + [ps[n]];
    }
  }

  lemma {:induction false} ListedOnce(ps: seq<Commit>, L: set<Commit>) returns (q: Commit)
    requires Listed(ps, L) == 1
    ensures q in ps && q in L && forall p :: p in ps && p in L ==> p == q
  {
    var n := |ps| - 1;
    assert ps == ps[..n] + [ps[n]];
    if ps[n] in L {
      ListedNone(ps[..n], L);
      q := ps[n];
    } else {
      q := ListedOnce(ps[..n], L);
    }
  }

  /** count_interesting_parents. */
  method CountInterestingParents(ghost G: set<Commit>, ghost list: seq<Commit>, commit: Commit) returns (count: nat)
    requires Bisectable(G, list) && commit in list
    ensures count == Listed(commit.parents, Elements(list))
  {
    count := 0;
    var i := 0;
    while i < |commit.parents|
      invariant 0 <= i <= |commit.parents|
      invariant count == Listed(commit.parents[..i], Elements(list))
    {
      assert commit.parents[..i + 1][..i] == commit.parents[..i];
      var p := commit.parents[i];
      assert p in commit.parents && commit in Elements(list) && p in G;
      assert Uninteresting !in p.flags <==> p in Elements(list);
      if Uninteresting !in p.flags {
        count := count + 1;
      }
      i := i + 1;
    }
    assert commit.parents[..i] == commit.parents;
  }

  // ---- The weight table ---------------------------------------------------------------------

  /** What the table may say of one commit: its exact weight, or -1 for a lone parent, or -2 for a merge. */
  ghost predicate Entry(L: set<Commit>, same: set<Commit>, c: Commit, w: int) {
    || w == Weight(L, same, c)
    || (w == -1 && Listed(c.parents, L) == 1)
    || (w == -2 && Listed(c.parents, L) >= 2)
  }

  ghost predicate Table(L: set<Commit>, same: set<Commit>, weights: map<Commit, int>) {
    weights.Keys == L && forall c :: c in L ==> Entry(L, same, c, weights[c])
  }

  /** The commits the counter has counted: those with a weight, unless they leave the tree alone and are no merge. */
  ghost function CountedSet(L: set<Commit>, same: set<Commit>, weights: map<Commit, int>): set<Commit>
    requires weights.Keys == L
  {
    set c | c in L && weights[c] >= 0 && (c !in same || Listed(c.parents, L) >= 2)
  }

  /** As good a place to bisect as any: it changes the tree and no other tree-changing commit splits more evenly. */
  ghost predicate Optimal(L: set<Commit>, same: set<Commit>, best: Commit) {
    var nr := Weigh(L, same);
    && best in L && best !in same
    && forall c :: c in L && c !in same ==>
      Least(Weight(L, same, c), nr - Weight(L, same, c)) <= Least(Weight(L, same, best), nr - Weight(L, same, best))
  }

  function Least(a: int, b: int): int {
    if b < a then b else a
  }

  /** halfway. */
  predicate Halfway(w: int, nr: int, treeSame: bool) {
    !treeSame && -1 <= 2 * w - nr <= 1
  }

  /** A commit exactly half-way cannot be beaten. */
  lemma HalfwayIsOptimal(L: set<Commit>, same: set<Commit>, c: Commit)
    requires c in L && c !in same && Halfway(Weight(L, same, c), Weigh(L, same), false)
    ensures Optimal(L, same, c)
  {}

  /** One commit's first entry: its weight if it has no interesting parent, otherwise what is still unknown. */
  method FirstWeight(ghost G: set<Commit>, ghost list: seq<Commit>, commit: Commit) returns (w: int)
    requires Bisectable(G, list) && commit in list
    ensures FirstEntry(Elements(list), Same(G), commit, w)
    ensures w == 1 <==> w >= 0 && commit !in Same(G)
  {
    assert commit in Elements(list) && commit in G;
    var count := CountInterestingParents(G, list, commit);
    if count == 0 {
      ListedNone(commit.parents, Elements(list));
      LeafWeight(Elements(list), Same(G), commit);
      w := if TreeSame !in commit.flags then 1 else 0;
    } else if count == 1 {
      w := -1;
    } else {
      w := -2;
    }
  }

  /** The entries made so far, and those of them that were counted. */
  ghost predicate Classified(L: set<Commit>, same: set<Commit>, weights: map<Commit, int>, done: set<Commit>) {
    && (forall c :: c in weights ==> FirstEntry(L, same, c, weights[c]))
    && (forall c :: c in done ==> c in weights)
    && (forall c :: c in weights ==> (c in done <==> weights[c] >= 0 && c !in same))
  }

  ghost predicate FirstEntry(L: set<Commit>, same: set<Commit>, c: Commit, w: int) {
    Entry(L, same, c, w) && (Listed(c.parents, L) == 0 <==> w >= 0)
  }

  lemma ClassifyNext(L: set<Commit>, same: set<Commit>, weights: map<Commit, int>, done: set<Commit>, c: Commit, w: int)
    requires Classified(L, same, weights, done) && c !in weights && FirstEntry(L, same, c, w)
    ensures Classified(L, same, weights[c := w], if w >= 0 && c !in same then done + {c} else done)
    ensures c !in done
  {}

  lemma AllClassified(L: set<Commit>, same: set<Commit>, weights: map<Commit, int>, done: set<Commit>)
    requires Classified(L, same, weights, done) && weights.Keys == L
    ensures Table(L, same, weights) && done == CountedSet(L, same, weights) && StrandsOpen(L, weights)
  {
    forall c | c in L && Listed(c.parents, L) == 1 ensures weights[c] == -1 {
      assert FirstEntry(L, same, c, weights[c]);
    }
    forall c ensures c in done <==> c in CountedSet(L, same, weights) {
      if c in weights { assert FirstEntry(L, same, c, weights[c]); }
    }
  }

  /** The first loop: classify each commit by its interesting parents. */
  method InitWeights(ghost G: set<Commit>, list: seq<Commit>) returns (weights: map<Commit, int>, counted: nat)
    requires Bisectable(G, list)
    ensures Tally(Elements(list), Same(G), weights, counted) && StrandsOpen(Elements(list), weights)
  {
    assert Distinct(list);
    hide FirstEntry, Entry, Table, StrandsOpen, CountedSet, Same, Bisectable;
    ghost var L, same := Elements(list), Same(G);
    weights, counted := map[], 0;
    ghost var done := {};
    var n := 0;
    while n < |list|
      invariant 0 <= n <= |list| && weights.Keys == Elements(list[..n]) && counted == |done|
      invariant Classified(L, same, weights, done)
    {
      ElementsNext(list, n);
      assert list[n] !in list[..n];
      var w := FirstWeight(G, list, list[n]);
      ClassifyNext(L, same, weights, done, list[n], w);
      weights := weights[list[n] := w];
      if w == 1 {
        counted := counted + 1;
        done := done + {list[n]};
      }
      n := n + 1;
    }
    assert list[..n] == list;
    AllClassified(L, same, weights, done);
  }

  /** The merges that leave the tree alone: the counter takes them for tree-changing commits. */
  ghost function SameMerges(L: set<Commit>, same: set<Commit>): set<Commit> {
    set c | c in L && c in same && Listed(c.parents, L) >= 2
  }

  ghost function Changing(L: set<Commit>, same: set<Commit>): set<Commit> {
    set c | c in L && c !in same
  }

  /** The tree-changing commits with exactly one listed parent, whose weights the third loop fills in. */
  ghost function Strand(L: set<Commit>, same: set<Commit>): set<Commit> {
    set c | c in L && c !in same && Listed(c.parents, L) == 1
  }

  /** No commit stands before one of its parents. */
  ghost predicate ParentsFirst(list: seq<Commit>) {
    forall i, j :: 0 <= i < j < |list| ==> list[j] !in list[i].parents
  }

  /** The counter does not end the third loop before it is done. */
  ghost predicate Weighable(L: set<Commit>, same: set<Commit>, parentsFirst: bool) {
    || Strand(L, same) == {}
    || SameMerges(L, same) == {}
    || (|SameMerges(L, same)| < |Strand(L, same)| && parentsFirst)
  }

  /** The counter keeps the third loop from starting although there are weights to fill in. */
  ghost predicate Starved(L: set<Commit>, same: set<Commit>) {
    0 < |Strand(L, same)| <= |SameMerges(L, same)|
  }

  /** Nothing has been said yet of the commits with one listed parent. */
  ghost predicate StrandsOpen(L: set<Commit>, weights: map<Commit, int>) {
    forall c :: c in L && c in weights && Listed(c.parents, L) == 1 ==> weights[c] == -1
  }

  /** The tree-changing commits without a weight. */
  ghost function Missing(L: set<Commit>, same: set<Commit>, weights: map<Commit, int>): set<Commit>
    requires weights.Keys == L
  {
    set c | c in L && c !in same && weights[c] < 0
  }

  /** The merges that leave the tree alone and are counted all the same. */
  ghost function Surplus(L: set<Commit>, same: set<Commit>, weights: map<Commit, int>): set<Commit>
    requires weights.Keys == L
  {
    set c | c in SameMerges(L, same) && weights[c] >= 0
  }

  /** The counter is short by the tree-changing commits without a weight, and over by the merges that are not. */
  lemma CounterOff(L: set<Commit>, same: set<Commit>, weights: map<Commit, int>, counted: nat)
    requires Tally(L, same, weights, counted)
    ensures counted + |Missing(L, same, weights)| == Weigh(L, same) + |Surplus(L, same, weights)|
  {
    WeighIs(L, same, Changing(L, same));
    hide Listed, Weigh;
    var known := KnownOf(L, same, weights);
    assert CountedSet(L, same, weights) == known + Surplus(L, same, weights);
    assert Changing(L, same) == known + Missing(L, same, weights);
    assert known !! Surplus(L, same, weights) && known !! Missing(L, same, weights);
    hide *;
  }

  /** When all merges are weighed and nothing else, what is missing are the commits with one listed parent. */
  lemma StrandsMissing(L: set<Commit>, same: set<Commit>, weights: map<Commit, int>)
    requires Table(L, same, weights) && MergesDone(L, weights) && StrandsOpen(L, weights)
    ensures Missing(L, same, weights) == Strand(L, same) && Surplus(L, same, weights) == SameMerges(L, same)
  {
    OpenAre(L, same, weights);
    hide Listed;
  }

  lemma OpenAre(L: set<Commit>, same: set<Commit>, weights: map<Commit, int>)
    requires Table(L, same, weights) && MergesDone(L, weights) && StrandsOpen(L, weights)
    ensures forall c :: c in L ==> (weights[c] >= 0 <==> Listed(c.parents, L) != 1)
  {
    hide Listed, Weight;
    forall c | c in L ensures weights[c] >= 0 <==> Listed(c.parents, L) != 1 {
      assert Entry(L, same, c, weights[c]);
    }
  }

  /** The table is right, and the counter says how many of its entries are counted. */
  ghost predicate Tally(L: set<Commit>, same: set<Commit>, weights: map<Commit, int>, counted: nat) {
    Table(L, same, weights) && counted == |CountedSet(L, same, weights)|
  }

  lemma TableOf(L: set<Commit>, same: set<Commit>, weights: map<Commit, int>, counted: nat)
    requires Tally(L, same, weights, counted)
    ensures Table(L, same, weights)
  {}

  lemma SetWeight(L: set<Commit>, same: set<Commit>, weights: map<Commit, int>, counted: nat, c: Commit, w: int)
    requires Tally(L, same, weights, counted) && c in L && weights[c] < 0 && w >= 0 && Entry(L, same, c, w)
    ensures Tally(L, same, weights[c := w], if c !in same || Listed(c.parents, L) >= 2 then counted + 1 else counted)
  {
    var was, now := CountedSet(L, same, weights), CountedSet(L, same, weights[c := w]);
    if c !in same || Listed(c.parents, L) >= 2 {
      assert now == was + {c};
    } else {
      assert now == was;
    }
  }

  /** None of the commits in `seen` is a merge still to be weighed. */
  ghost predicate MergesDone(seen: set<Commit>, weights: map<Commit, int>) {
    forall c :: c in seen ==> c in weights && weights[c] != -2
  }

  /** Weigh one merge by counting. */
  method WeighMerge(ghost G: set<Commit>, list: seq<Commit>, p: Commit, nr: nat, weights0: map<Commit, int>,
      counted0: nat, ghost seen: set<Commit>)
    returns (weights: map<Commit, int>, counted: nat, half: bool)
    requires Bisectable(G, list) && nr == Weigh(Elements(list), Same(G)) && p in list
    requires Tally(Elements(list), Same(G), weights0, counted0) && weights0[p] == -2
    modifies G`flags
    ensures FlagsKept(G) && Same(G) == old(Same(G)) && Bisectable(G, list)
    ensures Table(Elements(list), Same(G), weights) && weights[p] >= 0
    ensures MergesDone(seen, weights0) ==> MergesDone(seen + {p}, weights)
    ensures half ==> Optimal(Elements(list), Same(G), p)
    ensures !half ==> Tally(Elements(list), Same(G), weights, counted)
    ensures StrandsOpen(Elements(list), weights0) ==> StrandsOpen(Elements(list), weights)
    ensures Listed(p.parents, Elements(list)) >= 2
  {
    assert p in Elements(list) && Entry(Elements(list), Same(G), p, weights0[p]);
    var w := WeighByCounting(G, list, p);
    SetWeight(Elements(list), Same(G), weights0, counted0, p, w);
    weights, counted := weights0[p := w], counted0;
    half := Halfway(w, nr, TreeSame in p.flags);
    if half {
      HalfwayIsOptimal(Elements(list), Same(G), p);
    } else {
      counted := counted + 1;
    }
  }

  /** The second loop: weigh the merges by counting; stop at one that is exactly half-way. */
  method WeighMerges(ghost G: set<Commit>, list: seq<Commit>, nr: nat, weights0: map<Commit, int>, counted0: nat)
    returns (weights: map<Commit, int>, counted: nat, best: seq<Commit>)
    requires Bisectable(G, list) && nr == Weigh(Elements(list), Same(G))
    requires Tally(Elements(list), Same(G), weights0, counted0) && StrandsOpen(Elements(list), weights0)
    modifies G`flags
    ensures FlagsKept(G) && Table(Elements(list), old(Same(G)), weights)
    ensures best != [] ==> best[0] in list && Optimal(Elements(list), old(Same(G)), best[0]) && weights[best[0]] >= 0
    ensures best != [] ==> Listed(best[0].parents, Elements(list)) >= 2
    ensures Bisectable(G, list) && Same(G) == old(Same(G))
    ensures best == [] ==> StrandsOpen(Elements(list), weights)
    ensures best == [] ==> Tally(Elements(list), old(Same(G)), weights, counted)
    ensures best == [] ==> MergesDone(Elements(list), weights)
  {
    ghost var L, same := Elements(list), Same(G);
    weights, counted, best := weights0, counted0, [];
    ghost var seen := {};
    var n := 0;
    while n < |list|
      invariant 0 <= n <= |list| && FlagsKept(G) && Same(G) == same && Bisectable(G, list)
      invariant Tally(L, same, weights, counted) && StrandsOpen(L, weights)
      invariant seen == Elements(list[..n]) && MergesDone(seen, weights)
    {
      ElementsNext(list, n);
      if weights[list[n]] == -2 {
        var half;
        weights, counted, half := WeighMerge(G, list, list[n], nr, weights, counted, seen);
        if half {
          best := [list[n]];
          return;
        }
      }
      seen := seen + {list[n]};
      n := n + 1;
    }
    assert list[..n] == list;
  }

  // ---- Filling the blanks -------------------------------------------------------------------

  ghost function Unknown(weights: map<Commit, int>): set<Commit> {
    set c | c in weights && weights[c] < 0
  }

  lemma AncestorsShrink(L: set<Commit>, c: Commit, p: Commit)
    requires Acyclic(L) && c in L && p in L && p in c.parents
    ensures ReachSet(L, {p}) < ReachSet(L, {c})
  {
    forall x | x in ReachSet(L, {p}) ensures x in ReachSet(L, {c}) {
      ReachVia(L, c, p, x);
    }
    ReachSelf(L, c);
    assert c in ReachSet(L, {c}) && c !in ReachSet(L, {p});
  }

  /** While something is unknown, some unknown commit has its one listed parent known. */
  lemma LowestUnknown(L: set<Commit>, same: set<Commit>, weights: map<Commit, int>, x: Commit)
    returns (u: Commit, q: Commit)
    requires Acyclic(L) && Table(L, same, weights) && MergesDone(L, weights) && x in Unknown(weights)
    ensures u in Unknown(weights) && q in u.parents && q in L && weights[q] >= 0
    decreases ReachSet(L, {x})
  {
    assert Entry(L, same, x, weights[x]);
    q := ListedOnce(x.parents, L);
    if weights[q] >= 0 {
      u := x;
    } else {
      AncestorsShrink(L, x, q);
      u, q := LowestUnknown(L, same, weights, q);
    }
  }

  /** The inner loop over parents: an interesting one whose weight is known, if there is one. */
  method KnownParent(ghost G: set<Commit>, ghost list: seq<Commit>, p: Commit, weights: map<Commit, int>)
    returns (known: seq<Commit>)
    requires Bisectable(G, list) && p in list && weights.Keys == Elements(list)
    ensures known != [] ==> known[0] in p.parents && known[0] in Elements(list) && weights[known[0]] >= 0
    ensures known == [] ==> forall q :: q in p.parents && q in Elements(list) ==> weights[q] < 0
  {
    assert p in Elements(list);
    var i := 0;
    while i < |p.parents|
      invariant 0 <= i <= |p.parents|
      invariant forall q :: q in p.parents[..i] && q in Elements(list) ==> weights[q] < 0
    {
      var q := p.parents[i];
      assert q in p.parents && p.parents[..i + 1] == p.parents[..i] + [q];
      assert Uninteresting !in q.flags <==> q in Elements(list);
      if Uninteresting !in q.flags && weights[q] >= 0 {
        return [q];
      }
      i := i + 1;
    }
    assert p.parents[..i] == p.parents;
    known := [];
  }

  /** The weight of an unknown commit follows from its known parent. */
  lemma WeightFromParent(L: set<Commit>, same: set<Commit>, weights: map<Commit, int>, p: Commit, q: Commit)
    requires Acyclic(L) && Table(L, same, weights) && MergesDone(L, weights) && p in L && weights[p] < 0
    requires q in p.parents && q in L && weights[q] >= 0
    ensures Weight(L, same, p) == weights[q] + if p in same then 0 else 1
    ensures Listed(p.parents, L) == 1
  {
    assert Entry(L, same, p, weights[p]) && Entry(L, same, q, weights[q]);
    var r := ListedOnce(p.parents, L);
    SingleParentWeight(L, same, p, q);
  }

  /** Nothing that was known is forgotten. */
  ghost predicate Keeps(before: map<Commit, int>, after: map<Commit, int>) {
    after.Keys == before.Keys && forall c :: c in before && before[c] >= 0 ==> after[c] == before[c]
  }

  /** One commit of the third loop: fill its weight in if a parent's is known. */
  method FillOne(ghost G: set<Commit>, list: seq<Commit>, p: Commit, nr: nat, weights0: map<Commit, int>, counted0: nat)
    returns (weights: map<Commit, int>, counted: nat, half: bool)
    requires Bisectable(G, list) && nr == Weigh(Elements(list), Same(G)) && p in list && Acyclic(Elements(list))
    requires Tally(Elements(list), Same(G), weights0, counted0) && MergesDone(Elements(list), weights0)
    ensures Table(Elements(list), Same(G), weights)
    ensures half ==> Optimal(Elements(list), Same(G), p) && weights[p] >= 0
    ensures !half ==> Tally(Elements(list), Same(G), weights, counted) && MergesDone(Elements(list), weights)
    ensures Keeps(weights0, weights)
    ensures weights0[p] >= 0 || (exists q :: q in p.parents && q in weights0 && weights0[q] >= 0) ==> weights[p] >= 0
    ensures Weighted(weights) == Weighted(weights0) + NextTo(Elements(list), Weighted(weights0), p)
  {
    hide NextTo, Weighted, Weight, Weigh, Acyclic, Tally, Optimal, Listed;
    ghost var L, same := Elements(list), Same(G);
    TableOf(L, same, weights0, counted0);
    assert p in L && p in G;
    weights, counted, half := weights0, counted0, false;
    if weights[p] >= 0 {
      NextKnown(L, weights, p);
      return;
    }
    var known := KnownParent(G, list, p, weights);
    NextIs(L, weights, p, known);
    if known == [] {
      return;
    }
    WeightFromParent(L, same, weights, p, known[0]);
    var w := if TreeSame !in p.flags then weights[known[0]] + 1 else weights[known[0]];
    SetWeight(L, same, weights, counted, p, w);
    SetWeighted(weights, p, w);
    weights := weights[p := w];
    if TreeSame !in p.flags {
      counted := counted + 1;
    }
    half := Halfway(w, nr, TreeSame in p.flags);
    if half {
      HalfwayIsOptimal(L, same, p);
    }
  }

  // ---- The passes ---------------------------------------------------------------------------

  /** The commits that have their weights. */
  ghost function Weighted(weights: map<Commit, int>): set<Commit> {
    set c | c in weights && weights[c] >= 0
  }

  /** `p`, if it is one of `K` or has a listed parent there. */
  ghost function NextTo(L: set<Commit>, K: set<Commit>, p: Commit): set<Commit> {
    if p in K || exists q :: q in p.parents && q in L && q in K then {p} else {}
  }

  lemma NextKnown(L: set<Commit>, weights: map<Commit, int>, p: Commit)
    requires p in weights && weights[p] >= 0
    ensures Weighted(weights) + NextTo(L, Weighted(weights), p) == Weighted(weights)
  {}

  lemma NextIs(L: set<Commit>, weights: map<Commit, int>, p: Commit, known: seq<Commit>)
    requires weights.Keys == L && p in L && weights[p] < 0
    requires known != [] ==> known[0] in p.parents && known[0] in L && weights[known[0]] >= 0
    requires known == [] ==> forall q :: q in p.parents && q in L ==> weights[q] < 0
    ensures NextTo(L, Weighted(weights), p) == if known == [] then {} else {p}
  {}

  lemma SetWeighted(weights: map<Commit, int>, p: Commit, w: int)
    requires w >= 0
    ensures Weighted(weights[p := w]) == Weighted(weights) + {p}
  {}

  lemma PassNext(list: seq<Commit>, K: set<Commit>, n: nat)
    requires n < |list|
    ensures PassTo(list, K, 0) == K
    ensures PassTo(list, K, n + 1) == PassTo(list, K, n) + NextTo(Elements(list), PassTo(list, K, n), list[n])
  {
    hide NextTo;
  }

  /** What is weighed when a pass that began with `K` has come to the n-th commit. */
  ghost function PassTo(list: seq<Commit>, K: set<Commit>, n: nat): set<Commit>
    requires n <= |list|
  {
    if n == 0 then K else PassTo(list, K, n - 1) + NextTo(Elements(list), PassTo(list, K, n - 1), list[n - 1])
  }

  lemma {:induction false} PassGrows(list: seq<Commit>, K: set<Commit>, n: nat, m: nat)
    requires n <= m <= |list| && K <= Elements(list)
    ensures K <= PassTo(list, K, n) <= PassTo(list, K, m) <= Elements(list)
    decreases m
  {
    if n < m {
      PassGrows(list, K, n, m - 1);
      assert list[m - 1] in Elements(list);
    } else if m > 0 {
      PassGrows(list, K, m - 1, m - 1);
      assert list[m - 1] in Elements(list);
    }
  }

  /** What the counter says when the commits of `K` are weighed. */
  ghost function Counter(L: set<Commit>, same: set<Commit>, K: set<Commit>): nat {
    |set c | c in L && c in K && (c !in same || Listed(c.parents, L) >= 2)|
  }

  /** What is weighed in the end, pass after pass, until the counter says that it is enough. */
  ghost function Fills(list: seq<Commit>, same: set<Commit>, K: set<Commit>): set<Commit>
    requires K <= Elements(list)
    decreases set c | c in Elements(list) && c !in K
  {
    PassGrows(list, K, 0, |list|);
    var next := PassTo(list, K, |list|);
    if Counter(Elements(list), same, K) < Weigh(Elements(list), same) && next != K then
      FewerLeft(Elements(list), K, next);
      Fills(list, same, next)
    else K
  }

  lemma FewerLeft(L: set<Commit>, K: set<Commit>, next: set<Commit>)
    requires K < next <= L
    ensures (set c | c in L && c !in next) < (set c | c in L && c !in K)
  {
    var x :| x in next && x !in K;
    var before, after := set c | c in L && c !in K, set c | c in L && c !in next;
    assert x in before && x !in after && after <= before;
  }

  lemma {:induction false} FillsGrows(list: seq<Commit>, same: set<Commit>, K: set<Commit>)
    requires K <= Elements(list)
    ensures K <= Fills(list, same, K) <= Elements(list)
    decreases set c | c in Elements(list) && c !in K
  {
    PassGrows(list, K, 0, |list|);
    var next := PassTo(list, K, |list|);
    if Counter(Elements(list), same, K) < Weigh(Elements(list), same) && next != K {
      FewerLeft(Elements(list), K, next);
      FillsGrows(list, same, next);
    }
  }

  /** One more pass leads to the same end. */
  lemma FillsOn(list: seq<Commit>, same: set<Commit>, K: set<Commit>, next: set<Commit>)
    requires K <= Elements(list) && next == PassTo(list, K, |list|)
    requires Counter(Elements(list), same, K) < Weigh(Elements(list), same)
    ensures next <= Elements(list) && next <= Fills(list, same, K)
    ensures next != K ==> Fills(list, same, next) == Fills(list, same, K)
  {
    PassGrows(list, K, 0, |list|);
    FillsGrows(list, same, K);
    FillsGrows(list, same, next);
    hide PassTo, Counter, Weigh;
  }

  lemma FillsEnds(list: seq<Commit>, same: set<Commit>, K: set<Commit>)
    requires K <= Elements(list) && Counter(Elements(list), same, K) >= Weigh(Elements(list), same)
    ensures Fills(list, same, K) == K
  {
    PassGrows(list, K, 0, |list|);
  }

  lemma CounterIs(L: set<Commit>, same: set<Commit>, weights: map<Commit, int>, counted: nat)
    requires Tally(L, same, weights, counted)
    ensures Weighted(weights) <= L && counted == Counter(L, same, Weighted(weights))
  {
    var K := Weighted(weights);
    assert CountedSet(L, same, weights) == set c | c in L && c in K && (c !in same || Listed(c.parents, L) >= 2);
  }

  /** The commits whose weights the first two loops know. */
  ghost function First(L: set<Commit>): set<Commit> {
    set c | c in L && Listed(c.parents, L) != 1
  }

  /** The tree-changing commits that are weighed in the end. */
  ghost function Weighed(list: seq<Commit>, same: set<Commit>): set<Commit> {
    var L := Elements(list);
    set c | c in Changing(L, same) && c in Fills(list, same, First(L))
  }

  lemma FirstIs(L: set<Commit>, same: set<Commit>, weights: map<Commit, int>)
    requires Table(L, same, weights) && MergesDone(L, weights) && StrandsOpen(L, weights)
    ensures Weighted(weights) == First(L)
  {
    OpenAre(L, same, weights);
    hide Listed;
  }

  /** In a list with parents first, the parent of a commit still unknown has been passed. */
  lemma ParentBefore(list: seq<Commit>, same: set<Commit>, weights: map<Commit, int>, n: nat)
    requires Acyclic(Elements(list)) && ParentsFirst(list) && n < |list|
    requires Table(Elements(list), same, weights) && MergesDone(Elements(list), weights) && weights[list[n]] < 0
    ensures exists q :: q in list[n].parents && q in Elements(list[..n])
  {
    var L, c := Elements(list), list[n];
    assert c in L && Entry(L, same, c, weights[c]);
    var q := ListedOnce(c.parents, L);
    var j :| 0 <= j < |list| && list[j] == q;
    ReachSelf(L, c);
    assert j < n && q in list[..n];
  }

  /** One pass over the list; it fills in at least the weight of `u`, whose parent `q` is known. */
  method FillPass(ghost G: set<Commit>, list: seq<Commit>, nr: nat, weights0: map<Commit, int>, counted0: nat,
      ghost u: Commit, ghost q: Commit)
    returns (weights: map<Commit, int>, counted: nat, best: seq<Commit>)
    requires Bisectable(G, list) && nr == Weigh(Elements(list), Same(G)) && Acyclic(Elements(list))
    requires Tally(Elements(list), Same(G), weights0, counted0) && MergesDone(Elements(list), weights0)
    requires u in Unknown(weights0) && q in u.parents && q in weights0 && weights0[q] >= 0
    ensures Table(Elements(list), Same(G), weights)
    ensures best != [] ==> best[0] in list && Optimal(Elements(list), Same(G), best[0]) && weights[best[0]] >= 0
    ensures best == [] ==> Tally(Elements(list), Same(G), weights, counted) && MergesDone(Elements(list), weights)
    ensures best == [] ==> Passed(list, weights0, weights)
    ensures best != [] ==> best[0] in PassTo(list, Weighted(weights0), |list|)
  {
    hide *;
    PassStarts(list, weights0, u);
    TableOf(Elements(list), Same(G), weights0, counted0);
    weights, counted, best := weights0, counted0, [];
    var n := 0;
    while n < |list|
      invariant 0 <= n <= |list| && Passing(list, weights0, weights, n, u) && Table(Elements(list), Same(G), weights)
      invariant Tally(Elements(list), Same(G), weights, counted) && MergesDone(Elements(list), weights)
    {
      var half;
      weights, counted, half := FillNext(G, list, n, nr, weights0, weights, counted, u, q);
      n := n + 1;
      if half {
        PassedIn(list, Same(G), weights0, weights, n, u, list[n - 1]);
        best := [list[n - 1]];
        return;
      }
    }
    PassEnds(list, Same(G), weights0, weights, u);
  }

  /** What holds in a pass that has come to the n-th commit. */
  ghost predicate Passing(list: seq<Commit>, first: map<Commit, int>, weights: map<Commit, int>, n: nat, u: Commit) {
    && n <= |list| && Keeps(first, weights)
    && (u in Elements(list[..n]) ==> u in weights && weights[u] >= 0)
    && (ParentsFirst(list) ==> AllFilled(Elements(list[..n]), weights))
    && Weighted(weights) == PassTo(list, Weighted(first), n)
  }

  /** What a whole pass does: it gives weights to some commits, to all of them if parents come first. */
  ghost predicate Passed(list: seq<Commit>, first: map<Commit, int>, weights: map<Commit, int>) {
    && weights.Keys == first.Keys && Unknown(weights) < Unknown(first)
    && (ParentsFirst(list) ==> AllFilled(Elements(list), weights))
    && Weighted(weights) == PassTo(list, Weighted(first), |list|)
  }

  lemma PassStarts(list: seq<Commit>, weights: map<Commit, int>, u: Commit)
    ensures Passing(list, weights, weights, 0, u)
  {
    assert list[..0] == [] && Elements([]) == {};
  }

  lemma PassedIn(list: seq<Commit>, same: set<Commit>, first: map<Commit, int>, weights: map<Commit, int>, n: nat,
      u: Commit, c: Commit)
    requires Passing(list, first, weights, n, u) && c in weights && weights[c] >= 0
    requires Table(Elements(list), same, first)
    ensures c in PassTo(list, Weighted(first), |list|)
  {
    hide PassTo, Keeps, AllFilled, ParentsFirst;
    assert c in Weighted(weights);
    PassGrows(list, Weighted(first), n, |list|);
  }

  lemma PassEnds(list: seq<Commit>, same: set<Commit>, first: map<Commit, int>, weights: map<Commit, int>, u: Commit)
    requires Passing(list, first, weights, |list|, u) && u in Unknown(first)
    requires Table(Elements(list), same, first)
    ensures Passed(list, first, weights)
  {
    assert list[..|list|] == list;
    hide PassTo, Weighted;
    FewerUnknown(first, weights, u);
  }

  /** Every commit of `S` has its weight. */
  ghost predicate AllFilled(S: set<Commit>, weights: map<Commit, int>) {
    forall c :: c in S ==> c in weights && weights[c] >= 0
  }

  lemma FewerUnknown(before: map<Commit, int>, after: map<Commit, int>, u: Commit)
    requires Keeps(before, after) && u in Unknown(before) && after[u] >= 0
    ensures Unknown(after) < Unknown(before)
  {
    assert u !in Unknown(after);
  }

  lemma KeepsThen(first: map<Commit, int>, before: map<Commit, int>, after: map<Commit, int>)
    requires Keeps(first, before) && Keeps(before, after)
    ensures Keeps(first, after)
  {}

  /** The n-th commit has been passed. */
  lemma PassedNext(list: seq<Commit>, first: map<Commit, int>, before: map<Commit, int>, after: map<Commit, int>,
      n: nat, u: Commit)
    requires Passing(list, first, before, n, u) && n < |list| && Keeps(before, after)
    requires Weighted(after) == Weighted(before) + NextTo(Elements(list), Weighted(before), list[n])
    requires u == list[n] || (ParentsFirst(list) && AllFilled(Elements(list[..n]), before)) ==>
      list[n] in after && after[list[n]] >= 0
    ensures Passing(list, first, after, n + 1, u)
  {
    ElementsNext(list, n);
    PassNext(list, Weighted(first), n);
    KeepsThen(first, before, after);
    hide PassTo, NextTo, Weighted, ParentsFirst;
  }

  /** One commit of a pass. */
  method FillNext(ghost G: set<Commit>, list: seq<Commit>, n: nat, nr: nat, ghost first: map<Commit, int>,
      weights0: map<Commit, int>, counted0: nat, ghost u: Commit, ghost q: Commit)
    returns (weights: map<Commit, int>, counted: nat, half: bool)
    requires Bisectable(G, list) && nr == Weigh(Elements(list), Same(G)) && n < |list| && Acyclic(Elements(list))
    requires Tally(Elements(list), Same(G), weights0, counted0) && MergesDone(Elements(list), weights0)
    requires Passing(list, first, weights0, n, u) && q in u.parents && q in first && first[q] >= 0
    ensures Table(Elements(list), Same(G), weights) && list[n] in Elements(list) && list[n] in weights
    ensures half ==> Optimal(Elements(list), Same(G), list[n]) && weights[list[n]] >= 0
    ensures !half ==> Tally(Elements(list), Same(G), weights, counted) && MergesDone(Elements(list), weights)
    ensures Passing(list, first, weights, n + 1, u)
  {
    assert list[n] in Elements(list);
    if ParentsFirst(list) && AllFilled(Elements(list[..n]), weights0) && weights0[list[n]] < 0 {
      ParentBefore(list, Same(G), weights0, n);
    }
    ghost var known := u == list[n] || (ParentsFirst(list) && AllFilled(Elements(list[..n]), weights0));
    assert known ==>
      weights0[list[n]] >= 0 || exists q :: q in list[n].parents && q in weights0 && weights0[q] >= 0;
    hide Passing, PassTo, Weighted, NextTo, AllFilled, ParentsFirst, Tally, MergesDone, Optimal, Weigh, Acyclic;
    weights, counted, half := FillOne(G, list, list[n], nr, weights0, counted0);
    PassedNext(list, first, weights0, weights, n, u);
  }

  // ---- Choosing -----------------------------------------------------------------------------

  /** Once the merges are weighed, only commits with one listed parent can be unknown. */
  lemma OnlyStrandUnknown(L: set<Commit>, same: set<Commit>, weights: map<Commit, int>)
    requires Table(L, same, weights) && MergesDone(L, weights)
    ensures forall c :: c in L && c !in same && weights[c] < 0 ==> c in Strand(L, same)
  {
    forall c | c in L && c !in same && weights[c] < 0 ensures c in Strand(L, same) {
      assert Entry(L, same, c, weights[c]);
    }
  }

  lemma SubsetSizes<T>(a: set<T>, b: set<T>)
    requires a <= b
    ensures |a| <= |b| && (|a| == |b| ==> a == b)
  {
    var rest := set x | x in b && x !in a;
    assert b == a + rest;
    if rest == {} {
      assert a == b;
    }
  }

  /** While the counter is short, something is unknown. */
  lemma SomeUnknown(L: set<Commit>, same: set<Commit>, weights: map<Commit, int>, counted: nat) returns (x: Commit)
    requires Tally(L, same, weights, counted) && counted < Weigh(L, same)
    ensures x in Unknown(weights)
  {
    var all := set c | c in L && c !in same;
    WeighIs(L, same, all);
    var done := CountedSet(L, same, weights);
    if all <= done {
      SubsetSizes(all, done);
    }
    x :| x in all && x !in done;
  }

  lemma UnknownLeft(weights: map<Commit, int>)
    ensures Weighted(weights) == weights.Keys - Unknown(weights)
  {}

  /** One round of the third loop: a pass over the list. */
  method FillRound(ghost G: set<Commit>, list: seq<Commit>, nr: nat, weights0: map<Commit, int>, counted0: nat)
    returns (weights: map<Commit, int>, counted: nat, best: seq<Commit>)
    requires Bisectable(G, list) && nr == Weigh(Elements(list), Same(G)) && Acyclic(Elements(list))
    requires Tally(Elements(list), Same(G), weights0, counted0) && MergesDone(Elements(list), weights0)
    requires counted0 < nr && Weighted(weights0) <= Elements(list)
    ensures Table(Elements(list), Same(G), weights) && Weighted(weights) <= Elements(list)
    ensures best != [] ==> best[0] in list && Optimal(Elements(list), Same(G), best[0]) && weights[best[0]] >= 0
    ensures best == [] ==> Tally(Elements(list), Same(G), weights, counted) && MergesDone(Elements(list), weights)
    ensures best == [] ==> Unknown(weights) < Unknown(weights0)
    ensures best == [] && ParentsFirst(list) ==> AllFilled(Elements(list), weights)
    ensures best == [] ==> Fills(list, Same(G), Weighted(weights)) == Fills(list, Same(G), Weighted(weights0))
    ensures best != [] ==> best[0] in Fills(list, Same(G), Weighted(weights0))
  {
    ghost var L, same, K := Elements(list), Same(G), Weighted(weights0);
    ghost var x := SomeUnknown(L, same, weights0, counted0);
    ghost var u, q := LowestUnknown(L, same, weights0, x);
    CounterIs(L, same, weights0, counted0);
    FillsOn(list, same, K, PassTo(list, K, |list|));
    UnknownLeft(weights0);
    hide Fills, PassTo, Counter, Weighted, Unknown, Tally, MergesDone, Optimal, Weigh, Bisectable, Acyclic;
    weights, counted, best := FillPass(G, list, nr, weights0, counted0, u, q);
    UnknownLeft(weights);
  }

  /** The third loop: pass after pass, until enough weights are known or one is exactly half-way. */
  method FillWeights(ghost G: set<Commit>, list: seq<Commit>, nr: nat, weights0: map<Commit, int>, counted0: nat)
    returns (weights: map<Commit, int>, best: seq<Commit>)
    requires Bisectable(G, list) && nr == Weigh(Elements(list), Same(G)) && Acyclic(Elements(list))
    requires Tally(Elements(list), Same(G), weights0, counted0) && MergesDone(Elements(list), weights0)
    requires StrandsOpen(Elements(list), weights0)
    ensures Table(Elements(list), Same(G), weights) && MergesDone(Elements(list), weights0)
    ensures best != [] ==> best[0] in list && Optimal(Elements(list), Same(G), best[0]) && weights[best[0]] >= 0
    ensures best == [] && Weighable(Elements(list), Same(G), ParentsFirst(list)) ==>
      Missing(Elements(list), Same(G), weights) == {}
    ensures Starved(Elements(list), Same(G)) ==> best == [] && weights == weights0
    ensures Weighted(weights0) <= Elements(list)
    ensures best == [] ==> Weighted(weights) == Fills(list, Same(G), Weighted(weights0))
    ensures best != [] ==> best[0] in Fills(list, Same(G), Weighted(weights0))
  {
    hide *;
    ghost var L, same := Elements(list), Same(G);
    var counted: nat := counted0;
    weights, best := weights0, [];
    FillStarts(list, same, weights, counted);
    ghost var all := Fills(list, same, Weighted(weights0));
    while counted < nr
      invariant Tally(L, same, weights, counted) && MergesDone(L, weights) && best == []
      invariant (weights == weights0 && counted == counted0) || (ParentsFirst(list) ==> AllFilled(L, weights))
      invariant Starved(L, same) ==> weights == weights0 && counted == counted0
      invariant Weighted(weights) <= L && Fills(list, same, Weighted(weights)) == all
      decreases Unknown(weights)
    {
      weights, counted, best := FillRound(G, list, nr, weights, counted);
      if best != [] {
        return;
      }
    }
    FillDone(list, same, weights, counted, ParentsFirst(list));
  }

  /** Before the first pass. */
  lemma FillStarts(list: seq<Commit>, same: set<Commit>, weights: map<Commit, int>, counted: nat)
    requires Tally(Elements(list), same, weights, counted) && MergesDone(Elements(list), weights)
    requires StrandsOpen(Elements(list), weights)
    ensures Weighted(weights) <= Elements(list)
    ensures Starved(Elements(list), same) ==> Weigh(Elements(list), same) <= counted
    ensures |SameMerges(Elements(list), same)| < |Strand(Elements(list), same)| ==>
      counted < Weigh(Elements(list), same)
  {
    CounterOff(Elements(list), same, weights, counted);
    StrandsMissing(Elements(list), same, weights);
    CounterIs(Elements(list), same, weights, counted);
    hide Missing, Surplus, SameMerges, Strand, Weigh, Tally, Weighted;
  }

  /** Behind the last pass, when the counter says that it is enough. */
  lemma FillDone(list: seq<Commit>, same: set<Commit>, weights: map<Commit, int>, counted: nat, parentsFirst: bool)
    requires Tally(Elements(list), same, weights, counted) && MergesDone(Elements(list), weights)
    requires Weigh(Elements(list), same) <= counted
    requires |SameMerges(Elements(list), same)| < |Strand(Elements(list), same)| && parentsFirst ==>
      AllFilled(Elements(list), weights)
    ensures Table(Elements(list), same, weights)
    ensures Weighted(weights) <= Elements(list) && Fills(list, same, Weighted(weights)) == Weighted(weights)
    ensures Weighable(Elements(list), same, parentsFirst) ==> Missing(Elements(list), same, weights) == {}
  {
    var L := Elements(list);
    CounterOff(L, same, weights, counted);
    CounterIs(L, same, weights, counted);
    FillsEnds(list, same, Weighted(weights));
    OnlyStrandUnknown(L, same, weights);
    hide Weigh, Tally, CountedSet, Weighted, Fills, Listed, Entry;
  }

  /** How far a weight is from the nearer end. */
  function Distance(weights: map<Commit, int>, nr: int, c: Commit): int
    requires c in weights
  {
    Least(weights[c], nr - weights[c])
  }

  /** The k-th commit is the first tree-changing one with the largest distance; without any distance, the head. */
  ghost predicate FirstBest(list: seq<Commit>, nr: int, weights: map<Commit, int>, k: nat)
    requires forall c :: c in list ==> c in weights
    reads list
  {
    && k < |list|
    && if forall c :: c in list && TreeSame !in c.flags ==> Distance(weights, nr, c) < 0 then k == 0
       else
         && TreeSame !in list[k].flags && Distance(weights, nr, list[k]) >= 0
         && (forall c :: c in list && TreeSame !in c.flags ==>
              Distance(weights, nr, c) <= Distance(weights, nr, list[k]))
         && forall c :: c in list[..k] && TreeSame !in c.flags ==>
              Distance(weights, nr, c) < Distance(weights, nr, list[k])
  }

  /** best_bisection: the first tree-changing commit with the largest distance; the head if there is none. */
  method BestBisection(list: seq<Commit>, nr: int, weights: map<Commit, int>) returns (best: Commit)
    requires list != [] && forall c :: c in list ==> c in weights
    ensures best in list
    ensures exists k: nat :: FirstBest(list, nr, weights, k) && best == list[k]
    ensures forall c :: c in list && TreeSame !in c.flags && 0 <= weights[c] <= nr ==>
      TreeSame !in best.flags && Least(weights[c], nr - weights[c]) <= Least(weights[best], nr - weights[best])
    ensures (forall c :: c in list ==> TreeSame in c.flags) ==> best == list[0]
  {
    best := list[0];
    var bestDistance := -1;
    var n := 0;
    ghost var k := 0;
    while n < |list|
      invariant 0 <= n <= |list| && 0 <= k < |list| && best == list[k] && bestDistance >= -1 && (k < n || k == 0)
      invariant bestDistance == -1 ==> k == 0
      invariant bestDistance >= 0 ==>
        TreeSame !in best.flags && k < n && bestDistance == Distance(weights, nr, best)
      invariant forall c :: c in list[..n] && TreeSame !in c.flags ==> Distance(weights, nr, c) <= bestDistance
      invariant forall c :: c in list[..k] && TreeSame !in c.flags ==> Distance(weights, nr, c) < bestDistance
    {
      var p := list[n];
      assert list[..n + 1] == list[..n] + [p];
      if TreeSame !in p.flags {
        var distance := weights[p];
        if nr - distance < distance {
          distance := nr - distance;
        }
        if distance > bestDistance {
          best, k := p, n;
          bestDistance := distance;
        }
      }
      n := n + 1;
    }
    assert list[..n] == list;
    assert FirstBest(list, nr, weights, k);
  }

  lemma AcyclicPart(G: set<Commit>, L: set<Commit>)
    requires Acyclic(G) && L <= G
    ensures Acyclic(L)
  {
    forall c, p | c in L && p in c.parents && Reach(L, p, c) ensures false {
      ReachSubset(L, G, p, c);
    }
  }

  /** No commit of `C` splits more evenly. */
  ghost predicate BestOf(L: set<Commit>, same: set<Commit>, C: set<Commit>, best: Commit) {
    var nr := Weigh(L, same);
    best in C && forall c :: c in C ==>
      Least(Weight(L, same, c), nr - Weight(L, same, c)) <= Least(Weight(L, same, best), nr - Weight(L, same, best))
  }

  /** The best of some commits is optimal exactly if no tree-changing commit left out splits more evenly. */
  lemma OptimalIff(L: set<Commit>, same: set<Commit>, C: set<Commit>, best: Commit)
    requires C <= Changing(L, same) && BestOf(L, same, C, best)
    ensures Optimal(L, same, best) <==> forall c :: c in Changing(L, same) - C ==>
      var nr := Weigh(L, same);
      Least(Weight(L, same, c), nr - Weight(L, same, c)) <= Least(Weight(L, same, best), nr - Weight(L, same, best))
  {
    hide Weight, Weigh, Least;
    forall c | c in L && c !in same ensures c in C || c in Changing(L, same) - C {}
  }

  /** The best commit chosen from the weights that are known is the best of those commits. */
  lemma ChosenIsBest(L: set<Commit>, same: set<Commit>, weights: map<Commit, int>, best: Commit, x: Commit)
    requires Table(L, same, weights) && best in L && x in L && x !in same && weights[x] >= 0
    requires forall c :: c in L && c !in same && 0 <= weights[c] <= Weigh(L, same) ==>
      best !in same &&
        Least(weights[c], Weigh(L, same) - weights[c]) <= Least(weights[best], Weigh(L, same) - weights[best])
    ensures BestOf(L, same, KnownOf(L, same, weights), best) && weights[best] == Weight(L, same, best)
  {
    forall c | c in L && c !in same && weights[c] >= 0 ensures weights[c] == Weight(L, same, c) <= Weigh(L, same) {
      assert Entry(L, same, c, weights[c]);
      WeightBound(L, same, c);
    }
    assert weights[best] >= 0;
  }

  ghost function KnownOf(L: set<Commit>, same: set<Commit>, weights: map<Commit, int>): set<Commit>
    requires weights.Keys == L
  {
    set c | c in L && c !in same && weights[c] >= 0
  }

  lemma WeightBound(L: set<Commit>, same: set<Commit>, c: Commit)
    ensures Weight(L, same, c) <= Weigh(L, same)
  {
    var all, some := set x | x in L && x !in same, set x | x in ReachSet(L, {c}) && x !in same;
    WeighIs(L, same, all);
    WeighIs(ReachSet(L, {c}), same, some);
    SubsetSizes(some, all);
  }

  /** best_bisection on the weights as far as they are known. */
  method Choose(ghost G: set<Commit>, list: seq<Commit>, nr: nat, weights: map<Commit, int>) returns (best: Commit)
    requires Elements(list) <= G && nr == Weigh(Elements(list), Same(G)) && list != []
    requires Table(Elements(list), Same(G), weights)
    ensures best in list
    ensures KnownOf(Elements(list), Same(G), weights) != {} ==>
      BestOf(Elements(list), Same(G), KnownOf(Elements(list), Same(G), weights), best) &&
      weights[best] == Weight(Elements(list), Same(G), best)
    ensures KnownOf(Elements(list), Same(G), weights) == {} ==> best == list[0]
  {
    best := BestBisection(list, nr, weights);
    ghost var L, same := Elements(list), Same(G);
    forall c | c in list && TreeSame !in c.flags && weights[c] >= 0 ensures c in KnownOf(L, same, weights) {
      assert c in L;
    }
    assert forall c :: c in L ==> (TreeSame in c.flags <==> c in same);
    if KnownOf(L, same, weights) != {} {
      ghost var x :| x in KnownOf(L, same, weights);
      ChosenIsBest(L, same, weights, best, x);
    }
  }

  lemma SomeChanging(L: set<Commit>, same: set<Commit>)
    ensures Weigh(L, same) > 0 <==> Changing(L, same) != {}
  {
    WeighIs(L, same, Changing(L, same));
  }

  /** What the third loop leaves known. */
  lemma KnownAtEnd(L: set<Commit>, same: set<Commit>, weights: map<Commit, int>)
    requires Table(L, same, weights)
    ensures Missing(L, same, weights) == {} ==> KnownOf(L, same, weights) == Changing(L, same)
    ensures StrandsOpen(L, weights) && MergesDone(L, weights) ==>
      KnownOf(L, same, weights) == Changing(L, same) - Strand(L, same)
  {
    forall c | c in L ensures Entry(L, same, c, weights[c]) {}
    assert Changing(L, same) == KnownOf(L, same, weights) + Missing(L, same, weights);
  }

  lemma BestIsOptimal(L: set<Commit>, same: set<Commit>, best: Commit)
    ensures Optimal(L, same, best) <==> BestOf(L, same, Changing(L, same), best)
    ensures Optimal(L, same, best) && Listed(best.parents, L) != 1 ==>
      BestOf(L, same, Changing(L, same) - Strand(L, same), best)
  {}

  /**
   * What bisection promises of its choice. When the counter does not end the third loop too early, no
   * other tree-changing commit splits more evenly; when it keeps the loop from starting, none of those
   * that were weighed does, which leaves out those with exactly one listed parent.
   */
  ghost predicate Halves(L: set<Commit>, same: set<Commit>, parentsFirst: bool, best: Commit, reaches: int) {
    && (Weigh(L, same) > 0 && Weighable(L, same, parentsFirst) ==>
          Optimal(L, same, best) && reaches == Weight(L, same, best))
    && (Starved(L, same) && Changing(L, same) != Strand(L, same) ==>
          BestOf(L, same, Changing(L, same) - Strand(L, same), best) && reaches == Weight(L, same, best))
  }

  /** The third loop does not start, and all tree-changing commits are waiting for it. */
  ghost predicate NoneWeighed(L: set<Commit>, same: set<Commit>) {
    Starved(L, same) && Changing(L, same) == Strand(L, same)
  }

  lemma HalfIsWeighed(L: set<Commit>, same: set<Commit>, best: Commit)
    requires Optimal(L, same, best) && (Starved(L, same) ==> Listed(best.parents, L) != 1)
    ensures !NoneWeighed(L, same)
  {
    assert best in Changing(L, same);
  }

  lemma NoneKnown(L: set<Commit>, same: set<Commit>, weights: map<Commit, int>)
    requires Table(L, same, weights) && (Starved(L, same) ==> StrandsOpen(L, weights) && MergesDone(L, weights))
    ensures NoneWeighed(L, same) ==> KnownOf(L, same, weights) == {}
  {
    KnownAtEnd(L, same, weights);
  }

  /** A commit found to be half-way. */
  lemma HalfFound(L: set<Commit>, same: set<Commit>, weights: map<Commit, int>, parentsFirst: bool, best: Commit)
    requires Table(L, same, weights) && best in L && weights[best] >= 0 && Optimal(L, same, best)
    requires Starved(L, same) ==> Listed(best.parents, L) != 1
    ensures Halves(L, same, parentsFirst, best, weights[best])
  {
    assert Entry(L, same, best, weights[best]);
    BestIsOptimal(L, same, best);
    hide *;
    HalvesIf(L, same, parentsFirst, best, weights[best]);
  }

  lemma HalvesIf(L: set<Commit>, same: set<Commit>, parentsFirst: bool, best: Commit, reaches: int)
    requires reaches == Weight(L, same, best) && Optimal(L, same, best)
    requires Starved(L, same) ==> BestOf(L, same, Changing(L, same) - Strand(L, same), best)
    ensures Halves(L, same, parentsFirst, best, reaches)
  {}

  /** The best commit of those whose weights are known. */
  lemma ChoiceMade(L: set<Commit>, same: set<Commit>, weights: map<Commit, int>, parentsFirst: bool, best: Commit)
    requires Table(L, same, weights) && best in L
    requires KnownOf(L, same, weights) != {} ==>
      BestOf(L, same, KnownOf(L, same, weights), best) && weights[best] == Weight(L, same, best)
    requires Weighable(L, same, parentsFirst) ==> Missing(L, same, weights) == {}
    requires Starved(L, same) ==> StrandsOpen(L, weights) && MergesDone(L, weights)
    ensures Halves(L, same, parentsFirst, best, weights[best])
  {
    KnownAtEnd(L, same, weights);
    BestIsOptimal(L, same, best);
    SomeChanging(L, same);
    StrandChanges(L, same);
    hide Table, KnownOf, BestOf, Optimal, Changing, Strand, StrandsOpen, MergesDone, Weighable, Weigh, Weight, Missing;
  }

  /** What is promised for every list: the best of the commits that are weighed, or the head if there are none. */
  ghost predicate Picks(list: seq<Commit>, same: set<Commit>, best: Commit, reaches: int) {
    var L, F := Elements(list), Weighed(list, same);
    if F == {} then list != [] && best == list[0]
    else BestOf(L, same, F, best) && reaches == Weight(L, same, best)
  }

  lemma HalfPicked(list: seq<Commit>, same: set<Commit>, weights: map<Commit, int>, best: Commit)
    requires Table(Elements(list), same, weights) && best in Elements(list) && weights[best] >= 0
    requires Optimal(Elements(list), same, best) && best in Fills(list, same, First(Elements(list)))
    ensures Picks(list, same, best, weights[best])
  {
    var L, F := Elements(list), Weighed(list, same);
    assert Entry(L, same, best, weights[best]);
    hide Weight, Weigh, Fills, First;
    assert best in F;
    assert forall c :: c in F ==> c in L && c !in same;
  }

  lemma ChoicePicked(list: seq<Commit>, same: set<Commit>, weights: map<Commit, int>, best: Commit)
    requires list != [] && Table(Elements(list), same, weights) && best in Elements(list)
    requires Weighted(weights) == Fills(list, same, First(Elements(list)))
    requires KnownOf(Elements(list), same, weights) != {} ==>
      BestOf(Elements(list), same, KnownOf(Elements(list), same, weights), best) &&
      weights[best] == Weight(Elements(list), same, best)
    requires KnownOf(Elements(list), same, weights) == {} ==> best == list[0]
    ensures Picks(list, same, best, weights[best])
  {
    hide Weight, Weigh, Fills, First, BestOf;
    assert KnownOf(Elements(list), same, weights) == Weighed(list, same);
  }

  lemma MergeIsFirst(list: seq<Commit>, same: set<Commit>, c: Commit)
    requires c in Elements(list) && Listed(c.parents, Elements(list)) >= 2
    ensures c in Fills(list, same, First(Elements(list)))
  {
    FillsGrows(list, same, First(Elements(list)));
    hide Fills, Listed;
  }

  /** do_find_bisection, looking for one commit. */
  method DoFindBisection(ghost G: set<Commit>, list: seq<Commit>, nr: nat) returns (best: Commit, reaches: int)
    requires Bisectable(G, list) && nr == Weigh(Elements(list), Same(G)) && list != []
    modifies G`flags
    ensures FlagsKept(G) && best in list
    ensures Halves(Elements(list), old(Same(G)), ParentsFirst(list), best, reaches)
    ensures NoneWeighed(Elements(list), old(Same(G))) ==> best == list[0]
    ensures Picks(list, old(Same(G)), best, reaches)
  {
    ghost var L, same := Elements(list), Same(G);
    AcyclicPart(G, L);
    assert L <= G;
    hide Optimal, BestOf, Weigh, Tally, Weighable, Starved, Acyclic, KnownOf, Halves, ParentsFirst, Bisectable, Same;
    hide History, StrandsOpen, NoneWeighed, Picks, Fills, First;
    var weights, counted := InitWeights(G, list);
    var found;
    weights, counted, found := WeighMerges(G, list, nr, weights, counted);
    if found == [] {
      FirstIs(L, same, weights);
      weights, found := FillWeights(G, list, nr, weights, counted);
    } else {
      assert found[0] in L;
      MergeIsFirst(list, same, found[0]);
    }
    assert forall c :: c in list <==> c in L;
    if found != [] {
      best := found[0];
      HalfFound(L, same, weights, ParentsFirst(list), best);
      HalfIsWeighed(L, same, best);
      HalfPicked(list, same, weights, best);
    } else {
      best := Choose(G, list, nr, weights);
      ChoiceMade(L, same, weights, ParentsFirst(list), best);
      NoneKnown(L, same, weights);
      ChoicePicked(list, same, weights, best);
    }
    reaches := weights[best];
  }

  lemma StrandChanges(L: set<Commit>, same: set<Commit>)
    ensures Changing(L, same) == Strand(L, same) || Changing(L, same) - Strand(L, same) != {}
  {
    if Changing(L, same) - Strand(L, same) == {} {
      forall c | c in Changing(L, same) ensures c in Strand(L, same) {
        assert c !in Changing(L, same) - Strand(L, same);
      }
    }
  }

  // ---- A list that is not halved ------------------------------------------------------------

  /**
   * Six commits, all different: `a` and `b` without listed parents, `c` on `a`, `d` on `c`, and two
   * merges `m` and `n` of `a` and `b` that leave the tree alone.
   */
  ghost predicate TwoSameMerges(a: Commit, b: Commit, c: Commit, d: Commit, m: Commit, n: Commit) {
    && Distinct([a, b, c, d, m, n])
    && a.parents == [] && b.parents == [] && c.parents == [a] && d.parents == [c]
    && m.parents == [a, b] && n.parents == [a, b]
  }

  lemma SixDiffer(a: Commit, b: Commit, c: Commit, d: Commit, m: Commit, n: Commit)
    requires TwoSameMerges(a, b, c, d, m, n)
    ensures a !in {b, c, d, m, n} && b !in {c, d, m, n} && c !in {d, m, n} && d !in {m, n} && m != n
  {
    var s := [a, b, c, d, m, n];
    assert s[0] == a && s[1] == b && s[2] == c && s[3] == d && s[4] == m && s[5] == n;
  }

  /** A set closed under listed parents holds all that its members reach. */
  lemma ReachStays(L: set<Commit>, S: set<Commit>, x: Commit)
    requires x in S && S <= L && forall y, p :: y in S && p in y.parents && p in L ==> p in S
    ensures ReachSet(L, {x}) <= S
  {
    forall y | y in ReachSet(L, {x}) ensures y in S {
      ReachClosed(L, S, x, y);
    }
  }

  lemma SixAcyclic(a: Commit, b: Commit, c: Commit, d: Commit, m: Commit, n: Commit)
    requires TwoSameMerges(a, b, c, d, m, n)
    ensures Acyclic({a, b, c, d, m, n})
  {
    var L := {a, b, c, d, m, n};
    SixDiffer(a, b, c, d, m, n);
    ReachStays(L, {a}, a);
    ReachStays(L, {b}, b);
    ReachStays(L, {a, c}, c);
    forall x, p | x in L && p in x.parents ensures !Reach(L, p, x) {
      assert p in {p} && x !in ReachSet(L, {p});
    }
  }

  lemma SixListed(a: Commit, b: Commit, c: Commit, d: Commit, m: Commit, n: Commit)
    requires TwoSameMerges(a, b, c, d, m, n)
    ensures var L := {a, b, c, d, m, n};
      && Listed(a.parents, L) == Listed(b.parents, L) == 0 && Listed(c.parents, L) == Listed(d.parents, L) == 1
      && Listed(m.parents, L) == Listed(n.parents, L) == 2
  {
    assert [a, b][..1] == [a] && [a][..0] == [] && [c][..0] == [];
    var L := {a, b, c, d, m, n};
    assert Listed([a], L) == 1 && Listed([c], L) == 1;
  }

  lemma MergeWeight(L: set<Commit>, same: set<Commit>, a: Commit, b: Commit, m: Commit)
    requires L >= {a, b, m} && a.parents == [] && b.parents == [] && m.parents == [a, b] && same !! {a, b} && m in same
    requires a != b
    ensures Weight(L, same, m) == 2
  {
    ReachStays(L, {a, b, m}, m);
    ReachSelf(L, m);
    ReachSelf(L, a);
    ReachSelf(L, b);
    ReachVia(L, m, a, a);
    ReachVia(L, m, b, b);
    assert ReachSet(L, {m}) == {a, b, m};
    WeighIs({a, b, m}, same, {a, b});
  }

  lemma SixWeights(a: Commit, b: Commit, c: Commit, d: Commit, m: Commit, n: Commit)
    requires TwoSameMerges(a, b, c, d, m, n)
    ensures var L, same := {a, b, c, d, m, n}, {m, n};
      && Weigh(L, same) == 4 && Weight(L, same, a) == Weight(L, same, b) == 1 && Weight(L, same, c) == 2
      && Weight(L, same, m) == Weight(L, same, n) == 2
  {
    var L, same := {a, b, c, d, m, n}, {m, n};
    SixDiffer(a, b, c, d, m, n);
    SixAcyclic(a, b, c, d, m, n);
    WeighIs(L, same, {a, b, c, d});
    LeafWeight(L, same, a);
    LeafWeight(L, same, b);
    SingleParentWeight(L, same, c, a);
    MergeWeight(L, same, a, b, m);
    MergeWeight(L, same, a, b, n);
  }

  lemma SixSets(a: Commit, b: Commit, c: Commit, d: Commit, m: Commit, n: Commit)
    requires TwoSameMerges(a, b, c, d, m, n)
    ensures var L, same := {a, b, c, d, m, n}, {m, n};
      SameMerges(L, same) == {m, n} && Strand(L, same) == {c, d} && Changing(L, same) - Strand(L, same) == {a, b}
    ensures |{m, n}| == |{c, d}| == 2 && |{a, b, m, n}| == 4
  {
    SixDiffer(a, b, c, d, m, n);
    SixListed(a, b, c, d, m, n);
    hide Listed;
  }

  lemma SixTable(a: Commit, b: Commit, c: Commit, d: Commit, m: Commit, n: Commit, weights: map<Commit, int>)
    requires TwoSameMerges(a, b, c, d, m, n) && weights.Keys == {a, b, c, d, m, n}
    requires weights[a] == weights[b] == 1 && weights[c] == weights[d] == -1 && weights[m] == weights[n] == 2
    ensures Table({a, b, c, d, m, n}, {m, n}, weights)
  {
    SixListed(a, b, c, d, m, n);
    SixWeights(a, b, c, d, m, n);
    hide Listed, Weight, Weigh, TwoSameMerges;
  }

  lemma SixCounted(a: Commit, b: Commit, c: Commit, d: Commit, m: Commit, n: Commit, weights: map<Commit, int>)
    requires TwoSameMerges(a, b, c, d, m, n) && weights.Keys == {a, b, c, d, m, n}
    requires weights[a] == weights[b] == 1 && weights[c] == weights[d] == -1 && weights[m] == weights[n] == 2
    ensures var L := {a, b, c, d, m, n};
      CountedSet(L, {m, n}, weights) == {a, b, m, n} && MergesDone(L, weights) && StrandsOpen(L, weights)
  {
    SixDiffer(a, b, c, d, m, n);
    SixListed(a, b, c, d, m, n);
    hide Listed, TwoSameMerges;
  }

  /** The table once the merges are weighed: four commits are counted, out of four that change the tree. */
  lemma SixTally(a: Commit, b: Commit, c: Commit, d: Commit, m: Commit, n: Commit, weights: map<Commit, int>)
    requires TwoSameMerges(a, b, c, d, m, n)
    requires weights == map[a := 1, b := 1, c := -1, d := -1, m := 2, n := 2]
    ensures var L, same := {a, b, c, d, m, n}, {m, n};
      Tally(L, same, weights, 4) && MergesDone(L, weights) && StrandsOpen(L, weights)
  {
    SixDiffer(a, b, c, d, m, n);
    SixSets(a, b, c, d, m, n);
    hide Table, CountedSet, MergesDone, StrandsOpen, TwoSameMerges;
    assert weights.Keys == {a, b, c, d, m, n};
    SixTable(a, b, c, d, m, n, weights);
    SixCounted(a, b, c, d, m, n, weights);
  }

  lemma Beaten(L: set<Commit>, same: set<Commit>, c: Commit, best: Commit)
    requires c in L && c !in same && Halfway(Weight(L, same, c), Weigh(L, same), false)
    requires 2 * Weight(L, same, best) < Weigh(L, same) - 1
    ensures !Optimal(L, same, best)
  {
    hide Weight, Weigh;
  }

  lemma SixBeaten(a: Commit, b: Commit, c: Commit, d: Commit, m: Commit, n: Commit, best: Commit)
    requires TwoSameMerges(a, b, c, d, m, n)
    requires var L, same := {a, b, c, d, m, n}, {m, n}; BestOf(L, same, Changing(L, same) - Strand(L, same), best)
    ensures !Optimal({a, b, c, d, m, n}, {m, n}, best)
  {
    var L, same := {a, b, c, d, m, n}, {m, n};
    SixWeights(a, b, c, d, m, n);
    SixSets(a, b, c, d, m, n);
    SixDiffer(a, b, c, d, m, n);
    hide Changing, Strand, Weight, Weigh, Optimal, TwoSameMerges;
    assert best in {a, b};
    Beaten(L, same, c, best);
  }

  /**
   * With the merges weighed the counter says 4 of 4, so the third loop does not start: `c` keeps its
   * mark although it is exactly half-way, and none of the commits that were weighed is optimal.
   */
  lemma CountedTooSoon(a: Commit, b: Commit, c: Commit, d: Commit, m: Commit, n: Commit)
    requires TwoSameMerges(a, b, c, d, m, n)
    ensures var L, same := {a, b, c, d, m, n}, {m, n};
      var weights := map[a := 1, b := 1, c := -1, d := -1, m := 2, n := 2];
      && Tally(L, same, weights, Weigh(L, same)) && MergesDone(L, weights) && StrandsOpen(L, weights)
      && Starved(L, same) && Halfway(Weight(L, same, c), Weigh(L, same), false)
      && forall best :: BestOf(L, same, Changing(L, same) - Strand(L, same), best) ==> !Optimal(L, same, best)
  {
    var L, same := {a, b, c, d, m, n}, {m, n};
    SixSets(a, b, c, d, m, n);
    assert Starved(L, same);
    hide *;
    SixTally(a, b, c, d, m, n, map[a := 1, b := 1, c := -1, d := -1, m := 2, n := 2]);
    SixWeights(a, b, c, d, m, n);
    assert Halfway(2, 4, false);
    forall best | BestOf(L, same, Changing(L, same) - Strand(L, same), best) ensures !Optimal(L, same, best) {
      SixBeaten(a, b, c, d, m, n, best);
    }
  }

  /**
   * find_bisection without find_all: drop the uninteresting commits, reverse the list, and pick a
   * commit no other tree-changing commit beats at splitting the rest in two, or, where the counter
   * keeps weights from being filled in, none of those that were weighed.
   */
  method FindBisection(ghost G: set<Commit>, list: seq<Commit>) returns (best: seq<Commit>, reaches: int, all: nat)
    requires History(G) && Elements(list) <= G && Distinct(list)
    requires forall c :: c in list ==> Counted !in c.flags
    requires forall c, p :: c in list && p in c.parents && Uninteresting !in c.flags && Uninteresting !in p.flags ==>
      p in list
    modifies G`flags
    ensures FlagsKept(G)
    ensures var L := Interesting(old(Open(G)), list);
      && all == Weigh(L, old(Same(G)))
      && (L == {} <==> best == [])
      && (best != [] ==> best[0] in L)
      && (best != [] ==> Halves(L, old(Same(G)), ChildrenFirst(list, L), best[0], reaches))
      && (best != [] && NoneWeighed(L, old(Same(G))) ==> LastOf(list, L, best[0]))
      && (best != [] ==> Picks(Backwards(list, L), old(Same(G)), best[0], reaches))
  {
    var kept;
    kept, all := ReverseInteresting(G, list);
    if kept == [] {
      return [], 0, all;
    }
    assert kept[0] in Elements(kept);
    var b;
    b, reaches := DoFindBisection(G, kept, all);
    assert b in Elements(kept);
    best := [b];
  }

  /** The commits of `L`, last first. */
  ghost function Backwards(list: seq<Commit>, L: set<Commit>): seq<Commit> {
    if list == [] then [] else Backwards(list[1..], L) + if list[0] in L then [list[0]] else []
  }

  lemma {:induction false} BackwardsNext(list: seq<Commit>, c: Commit, L: set<Commit>)
    ensures Backwards(list + [c], L) == (if c in L then [c] else []) + Backwards(list, L)
  {
    if list == [] {
      assert list + [c] == [c] && [c][1..] == [];
    } else {
      assert (list + [c])[1..] == list[1..] + [c] && (list + [c])[0] == list[0];
      BackwardsNext(list[1..], c, L);
      Assoc(if c in L then [c] else [], Backwards(list[1..], L), if list[0] in L then [list[0]] else []);
    }
  }

  /** `c` is the last of the list that belongs to `L`. */
  ghost predicate LastOf(list: seq<Commit>, L: set<Commit>, c: Commit) {
    exists k :: 0 <= k < |list| && list[k] == c && forall j :: k < j < |list| ==> list[j] !in L
  }

  /** Among the commits of `L`, none stands behind one of its children. */
  ghost predicate ChildrenFirst(list: seq<Commit>, L: set<Commit>) {
    forall i, j :: 0 <= i < j < |list| && list[i] in L && list[j] in L ==> list[i] !in list[j].parents
  }

  /** The listed commits that are interesting. */
  ghost function Interesting(open: set<Commit>, list: seq<Commit>): set<Commit> {
    set c | c in Elements(list) && c in open
  }

  /** The loop of find_bisection: keep the interesting commits, last first, and count the tree-changing ones. */
  method ReverseInteresting(ghost G: set<Commit>, list: seq<Commit>) returns (kept: seq<Commit>, nr: nat)
    requires History(G) && Elements(list) <= G && Distinct(list)
    requires forall c :: c in list ==> Counted !in c.flags
    requires forall c, p :: c in list && p in c.parents && Uninteresting !in c.flags && Uninteresting !in p.flags ==>
      p in list
    ensures Elements(kept) == Interesting(Open(G), list) && nr == Weigh(Elements(kept), Same(G))
    ensures Bisectable(G, kept) && (ChildrenFirst(list, Elements(kept)) ==> ParentsFirst(kept))
    ensures kept != [] ==> LastOf(list, Elements(kept), kept[0])
    ensures kept == Backwards(list, Elements(kept))
  {
    ghost var I := Interesting(Open(G), list);
    kept, nr := [], 0;
    NothingReversed(list, I, Same(G));
    assert forall c :: c in list ==> (c in I <==> Uninteresting !in c.flags);
    hide Weigh, Backwards, History, ChildrenFirst, ParentsFirst, LastOf, Interesting;
    var n := 0;
    while n < |list|
      invariant 0 <= n <= |list| && nr == Weigh(Elements(kept), Same(G)) && kept == Backwards(list[..n], I)
    {
      assert list[n] in list && list[n] in Elements(list);
      BackwardsMore(list, n, I);
      if Uninteresting !in list[n].flags {
        KeepOne(kept, list[n], Same(G));
        kept := [list[n]] + kept;
        if TreeSame !in list[n].flags {
          nr := nr + 1;
        }
      } else {
        Unit(kept);
      }
      n := n + 1;
    }
    assert list[..n] == list;
    AllReversed(G, list, kept);
  }

  lemma AllReversed(G: set<Commit>, list: seq<Commit>, kept: seq<Commit>)
    requires History(G) && Elements(list) <= G && Distinct(list)
    requires forall c :: c in list ==> Counted !in c.flags
    requires forall c, p :: c in list && p in c.parents && Uninteresting !in c.flags && Uninteresting !in p.flags ==>
      p in list
    requires kept == Backwards(list, Interesting(Open(G), list))
    ensures Elements(kept) == Interesting(Open(G), list) && Bisectable(G, kept)
    ensures ChildrenFirst(list, Elements(kept)) ==> ParentsFirst(kept)
    ensures kept != [] ==> LastOf(list, Elements(kept), kept[0])
  {
    var I := Interesting(Open(G), list);
    BackwardsHolds(list, I);
    BackwardsOrder(list, I);
    BackwardsLast(list, I);
    hide Backwards, ChildrenFirst, ParentsFirst, LastOf, Acyclic;
    forall c ensures c in kept <==> c in I {
      assert c in list <==> c in Elements(list);
    }
    assert Elements(kept) == I;
  }

  lemma NothingReversed(list: seq<Commit>, L: set<Commit>, same: set<Commit>)
    ensures list[..0] == [] && Backwards([], L) == [] && Weigh(Elements([]), same) == 0
  {
    assert Elements([]) == {};
    WeighIs({}, same, {});
  }

  lemma BackwardsMore(list: seq<Commit>, n: nat, L: set<Commit>)
    requires Distinct(list) && n < |list|
    ensures Backwards(list[..n + 1], L) == (if list[n] in L then [list[n]] else []) + Backwards(list[..n], L)
    ensures list[n] !in Backwards(list[..n], L)
  {
    assert list[..n + 1] == list[..n] + [list[n]];
    BackwardsNext(list[..n], list[n], L);
    BackwardsHolds(list[..n], L);
  }

  /** The list turned round holds the commits of `L`, each once. */
  lemma {:induction false} BackwardsHolds(list: seq<Commit>, L: set<Commit>)
    requires Distinct(list)
    ensures forall c :: c in Backwards(list, L) ==> c in list && c in L
    ensures forall c :: c in list && c in L ==> c in Backwards(list, L)
    ensures Distinct(Backwards(list, L))
  {
    if list != [] {
      BackwardsHolds(list[1..], L);
      assert list == [list[0]] + list[1..];
      assert list[0] !in list[1..];
      hide Backwards;
      assert Backwards(list, L) == Backwards(list[1..], L) + (if list[0] in L then [list[0]] else []) by {
        BackwardsFirst(list, L);
      }
    }
  }

  lemma BackwardsFirst(list: seq<Commit>, L: set<Commit>)
    requires list != []
    ensures Backwards(list, L) == Backwards(list[1..], L) + if list[0] in L then [list[0]] else []
  {}

  /** Children in front of their parents come behind them. */
  lemma {:induction false} BackwardsOrder(list: seq<Commit>, L: set<Commit>)
    requires Distinct(list)
    ensures ChildrenFirst(list, Elements(Backwards(list, L))) ==> ParentsFirst(Backwards(list, L))
  {
    if list != [] {
      var n := |list| - 1;
      var init, c := list[..n], list[n];
      assert list == init + [c];
      assert Distinct(init) by {
        forall i, j | 0 <= i < j < n ensures init[i] != init[j] {
          assert list[i] == init[i] && list[j] == init[j];
        }
      }
      hide Distinct, Backwards, ChildrenFirst, ParentsFirst;
      BackwardsOrder(init, L);
      BackwardsNext(init, c, L);
      BackwardsHolds(init, L);
      Unit(Backwards(init, L));
      forall x | x in Backwards(init, L) ensures x in init {}
      assert Backwards(list, L) == if c in L then [c] + Backwards(init, L) else Backwards(init, L);
      ReversedNext(init, c, Backwards(init, L), Backwards(list, L));
    }
  }

  /** The last one comes in front. */
  lemma {:induction false} BackwardsLast(list: seq<Commit>, L: set<Commit>)
    ensures Backwards(list, L) != [] ==> LastOf(list, L, Backwards(list, L)[0])
  {
    if list != [] {
      var n := |list| - 1;
      var init, c := list[..n], list[n];
      assert list == init + [c];
      BackwardsLast(init, L);
      BackwardsNext(init, c, L);
      hide Backwards, LastOf;
      LastNext(init, c, L, Backwards(init, L), Backwards(list, L));
    }
  }

  lemma LastNext(init: seq<Commit>, c: Commit, L: set<Commit>, kept0: seq<Commit>, kept: seq<Commit>)
    requires kept0 != [] ==> LastOf(init, L, kept0[0])
    requires kept == (if c in L then [c] else []) + kept0
    ensures kept != [] ==> LastOf(init + [c], L, kept[0])
  {
    var list := init + [c];
    if c in L {
      assert list[|init|] == c == kept[0];
    } else if kept0 != [] {
      var k :| 0 <= k < |init| && init[k] == kept0[0] && forall j :: k < j < |init| ==> init[j] !in L;
      assert list[k] == kept0[0];
      assert forall j :: k < j < |list| ==> list[j] !in L by {
        forall j | k < j < |list| ensures list[j] !in L {
          assert j < |init| ==> list[j] == init[j];
        }
      }
    }
  }

  lemma ReversedNext(list: seq<Commit>, c: Commit, kept: seq<Commit>, kept': seq<Commit>)
    requires ChildrenFirst(list, Elements(kept)) ==> ParentsFirst(kept)
    requires (forall x :: x in kept ==> x in list) && (kept' == kept || kept' == [c] + kept)
    ensures ChildrenFirst(list + [c], Elements(kept')) ==> ParentsFirst(kept')
  {
    if ChildrenFirst(list + [c], Elements(kept')) {
      forall i, j | 0 <= i < j < |list| && list[i] in Elements(kept) && list[j] in Elements(kept)
        ensures list[i] !in list[j].parents
      {
        assert (list + [c])[i] == list[i] && (list + [c])[j] == list[j];
        assert list[i] in kept' && list[j] in kept';
      }
      if kept' != kept {
        forall j | 0 < j < |kept'| ensures kept'[j] !in c.parents {
          assert kept'[j] == kept[j - 1] && kept'[j] in list;
          var k :| 0 <= k < |list| && list[k] == kept'[j];
          assert (list + [c])[k] == kept'[j] && (list + [c])[|list|] == c;
          assert c in kept' && kept'[j] in kept';
        }
      }
    }
  }

  lemma KeepOne(kept: seq<Commit>, c: Commit, same: set<Commit>)
    requires c !in kept
    ensures Weigh(Elements([c] + kept), same) == Weigh(Elements(kept), same) + if c in same then 0 else 1
  {
    ElementsConcat([c], kept);
    assert Elements([c]) == {c};
    WeighUnion({c}, Elements(kept), same);
    WeighOne(c, same);
  }
}
