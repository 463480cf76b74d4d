/** The commit graph: commit objects with mutable flag bits, and reachability along parent links. */
module CommitGraph {

  /** The object flag bits used by the walks of commit.c and bisect.c. */
  datatype Flag = Parent1 | Parent2 | Stale | Result | Uninteresting | TreeSame | Counted

  /** A commit object. Parents, dates and parsability are fixed; only the flag bits change. */
  class Commit {
    const parents: seq<Commit>
    const date: nat
    const authorDate: nat
    const parsable: bool
    var flags: set<Flag>

    constructor (parents: seq<Commit>, date: nat, authorDate: nat, parsable: bool)
      ensures this.parents == parents && this.date == date
      ensures this.authorDate == authorDate && this.parsable == parsable && flags == {}
    {
      this.parents, this.date, this.authorDate, this.parsable := parents, date, authorDate, parsable;
      flags := {};
    }
  }

  // ---- Reachability -------------------------------------------------------------------------

  /** `b` is reached from `a` by exactly `n` parent links, every commit on the way lying in `V`. */
  ghost predicate ReachIn(V: set<Commit>, n: nat, a: Commit, b: Commit) {
    a in V && if n == 0 then a == b else exists p :: p in a.parents && ReachIn(V, n - 1, p, b)
  }

  /** `b` is `a` or an ancestor of `a`, along parent links that stay inside `V`. */
  ghost predicate Reach(V: set<Commit>, a: Commit, b: Commit) {
    exists n: nat :: ReachIn(V, n, a, b)
  }

  /** Everything reached from one of `tips` inside `V`. */
  ghost function ReachSet(V: set<Commit>, tips: set<Commit>): set<Commit> {
    set c | c in V && exists t :: t in tips && Reach(V, t, c)
  }

  /** `S` is closed under the parent links of `V`. */
  ghost predicate ClosedIn(V: set<Commit>, S: set<Commit>) {
    forall c, p :: c in S && c in V && p in c.parents && p in V ==> p in S
  }

  /** No commit of `V` is its own proper ancestor. */
  ghost predicate Acyclic(V: set<Commit>) {
    forall c, p :: c in V && p in c.parents ==> !Reach(V, p, c)
  }

  /** A finite history: all parents present, no cycles, and an unparsable commit shows no parents. */
  ghost predicate History(G: set<Commit>) {
    && (forall c, p :: c in G && p in c.parents ==> p in G)
    && Acyclic(G)
    && (forall c :: c in G && !c.parsable ==> c.parents == [])
  }

  ghost function Elements(s: seq<Commit>): set<Commit> {
    set c | c in s
  }

  lemma ElementsConcat(a: seq<Commit>, b: seq<Commit>)
    ensures Elements(a + b) == Elements(a) + Elements(b)
  {
    forall c | c in Elements(a) + Elements(b) ensures c in a + b {}
  }

  lemma ElementsNext(s: seq<Commit>, k: nat)
    requires k < |s|
    ensures Elements(s[..k + 1]) == Elements(s[..k]) + {s[k]} && s[k] in Elements(s)
  {
    assert s[..k + 1] == s[..k] + [s[k]];
    ElementsConcat(s[..k], [s[k]]);
    assert Elements([s[k]]) == {s[k]};
  }


  // ---- Laws of reachability -----------------------------------------------------------------

  lemma ReachSelf(V: set<Commit>, a: Commit)
    requires a in V
    ensures Reach(V, a, a)
  {
    assert ReachIn(V, 0, a, a);
  }

  lemma {:induction false} ReachInEnds(V: set<Commit>, n: nat, a: Commit, b: Commit)
    requires ReachIn(V, n, a, b)
    ensures a in V && b in V
  {
    if n > 0 {
      var p :| p in a.parents && ReachIn(V, n - 1, p, b);
      ReachInEnds(V, n - 1, p, b);
    }
  }

  lemma ReachEnds(V: set<Commit>, a: Commit, b: Commit)
    requires Reach(V, a, b)
    ensures a in V && b in V
  {
    var n: nat :| ReachIn(V, n, a, b);
    ReachInEnds(V, n, a, b);
  }

  /** Prepend one parent link. */
  lemma ReachVia(V: set<Commit>, a: Commit, p: Commit, b: Commit)
    requires a in V && p in a.parents && Reach(V, p, b)
    ensures Reach(V, a, b)
  {
    var n: nat :| ReachIn(V, n, p, b);
    assert ReachIn(V, n + 1, a, b);
  }

  /** The first link of a walk between different commits. */
  lemma ReachFirst(V: set<Commit>, a: Commit, b: Commit) returns (p: Commit)
    requires Reach(V, a, b) && a != b
    ensures p in a.parents && p in V && Reach(V, p, b)
  {
    var n: nat :| ReachIn(V, n, a, b);
    p :| p in a.parents && ReachIn(V, n - 1, p, b);
    ReachEnds(V, p, b);
  }

  lemma {:induction false} ReachInClosed(V: set<Commit>, S: set<Commit>, n: nat, a: Commit, b: Commit)
    requires ReachIn(V, n, a, b) && a in S && ClosedIn(V, S)
    ensures b in S
  {
    if n > 0 {
      var p :| p in a.parents && ReachIn(V, n - 1, p, b);
      ReachInEnds(V, n - 1, p, b);
      ReachInClosed(V, S, n - 1, p, b);
    }
  }

  /** The induction principle of the graph: a set closed under parent links holds all it reaches. */
  lemma ReachClosed(V: set<Commit>, S: set<Commit>, a: Commit, b: Commit)
    requires Reach(V, a, b) && a in S && ClosedIn(V, S)
    ensures b in S
  {
    var n: nat :| ReachIn(V, n, a, b);
    ReachInClosed(V, S, n, a, b);
  }

  lemma {:induction false} ReachInAppend(V: set<Commit>, n: nat, a: Commit, b: Commit, p: Commit)
    requires ReachIn(V, n, a, b) && p in b.parents && p in V
    ensures ReachIn(V, n + 1, a, p)
  {
    if n == 0 {
      assert ReachIn(V, 0, p, p);
    } else {
      var q :| q in a.parents && ReachIn(V, n - 1, q, b);
      ReachInAppend(V, n - 1, q, b, p);
    }
  }

  /** Append one parent link. */
  lemma ReachStep(V: set<Commit>, a: Commit, b: Commit, p: Commit)
    requires Reach(V, a, b) && p in b.parents && p in V
    ensures Reach(V, a, p)
  {
    var n: nat :| ReachIn(V, n, a, b);
    ReachInAppend(V, n, a, b, p);
  }

  lemma ReachSetClosed(V: set<Commit>, tips: set<Commit>)
    ensures ClosedIn(V, ReachSet(V, tips))
    ensures forall t :: t in tips && t in V ==> t in ReachSet(V, tips)
  {
    forall c, p | c in ReachSet(V, tips) && p in c.parents && p in V ensures p in ReachSet(V, tips) {
      var t :| t in tips && Reach(V, t, c);
      ReachStep(V, t, c, p);
    }
    forall t | t in tips && t in V ensures t in ReachSet(V, tips) {
      ReachSelf(V, t);
    }
  }

  lemma ReachTrans(V: set<Commit>, a: Commit, b: Commit, c: Commit)
    requires Reach(V, a, b) && Reach(V, b, c)
    ensures Reach(V, a, c)
  {
    ReachEnds(V, a, b);
    ReachSetClosed(V, {a});
    ReachClosed(V, ReachSet(V, {a}), b, c);
  }

  lemma ReachAntisym(V: set<Commit>, a: Commit, b: Commit)
    requires Acyclic(V) && Reach(V, a, b) && Reach(V, b, a)
    ensures a == b
  {
    if a != b {
      var p := ReachFirst(V, a, b);
      ReachTrans(V, p, b, a);
      ReachEnds(V, a, b);
    }
  }

  /** The proper descendants shrink strictly along a chain: the measure for climbing a history. */
  lemma DescendantsShrink(V: set<Commit>, child: Commit, c: Commit)
    requires Acyclic(V) && Reach(V, child, c) && child != c
    ensures Descendants(V, child) < Descendants(V, c)
  {
    forall d | d in Descendants(V, child) ensures d in Descendants(V, c) {
      ReachTrans(V, d, child, c);
    }
    ReachEnds(V, child, c);
    ReachSelf(V, c);
    if Reach(V, c, child) {
      ReachAntisym(V, child, c);
    }
    assert c in Descendants(V, c) && c !in Descendants(V, child);
  }

  ghost function Descendants(V: set<Commit>, c: Commit): set<Commit> {
    set d | d in V && Reach(V, d, c)
  }

  lemma {:induction false} ReachInSubset(V: set<Commit>, W: set<Commit>, n: nat, a: Commit, b: Commit)
    requires ReachIn(V, n, a, b) && V <= W
    ensures ReachIn(W, n, a, b)
  {
    if n > 0 {
      var p :| p in a.parents && ReachIn(V, n - 1, p, b);
      ReachInSubset(V, W, n - 1, p, b);
    }
  }

  lemma ReachSubset(V: set<Commit>, W: set<Commit>, a: Commit, b: Commit)
    requires Reach(V, a, b) && V <= W
    ensures Reach(W, a, b)
  {
    var n: nat :| ReachIn(V, n, a, b);
    ReachInSubset(V, W, n, a, b);
  }
}
