/** Merging two lists of lost lines along a longest common subsequence: the specification of coalesce_lines. */
module LineMerge {

  /** A lost line with the set of parents that had it. */
  datatype Lost = Lost(line: string, parents: set<nat>)

  /** When two lines count as the same (match_string_spaces under fixed flags). */
  type Same = (string, string) -> bool

  datatype Direction = MATCH | BASE | NEW

  // ---- The table ----------------------------------------------------------------------------

  /** The entry of the table for the prefixes `a` and `b`. */
  function Lcs(same: Same, a: seq<Lost>, b: seq<Lost>): nat
    decreases |a| + |b|
  {
    if a == [] || b == [] then 0
    else if same(a[|a| - 1].line, b[|b| - 1].line) then 1 + Lcs(same, a[..|a| - 1], b[..|b| - 1])
    else if Lcs(same, a, b[..|b| - 1]) >= Lcs(same, a[..|a| - 1], b) then Lcs(same, a, b[..|b| - 1])
    else Lcs(same, a[..|a| - 1], b)
  }

  /** Which list the last step of the best walk to the ends of `a` and `b` consumes. */
  function Step(same: Same, a: seq<Lost>, b: seq<Lost>): Direction {
    if b == [] then BASE
    else if a == [] then NEW
    else if same(a[|a| - 1].line, b[|b| - 1].line) then MATCH
    else if Lcs(same, a, b[..|b| - 1]) >= Lcs(same, a[..|a| - 1], b) then NEW
    else BASE
  }

  /** The merged list: matched lines once, marked with the new parent; all others where the walk finds them. */
  function Merge(same: Same, a: seq<Lost>, b: seq<Lost>, parent: nat): seq<Lost>
    decreases |a| + |b|
  {
    if a == [] && b == [] then []
    else
      match Step(same, a, b)
      case MATCH =>
        var l := a[|a| - 1];
        Merge(same, a[..|a| - 1], b[..|b| - 1], parent) + [l.(parents := l.parents + {parent})]
      case NEW => Merge(same, a, b[..|b| - 1], parent) + [b[|b| - 1]]
      case BASE => Merge(same, a[..|a| - 1], b, parent) + [a[|a| - 1]]
  }

  // ---- The table is the length of a longest common subsequence ------------------------------

  /** A common subsequence: pairs of positions that go up in both lists and hold the same line. */
  ghost predicate CommonSubsequence(same: Same, a: seq<Lost>, b: seq<Lost>, ps: seq<(nat, nat)>) {
    && (forall k :: 0 <= k < |ps| ==> ps[k].0 < |a| && ps[k].1 < |b| && same(a[ps[k].0].line, b[ps[k].1].line))
    && (forall k, m :: 0 <= k < m < |ps| ==> ps[k].0 < ps[m].0 && ps[k].1 < ps[m].1)
  }

  /** No common subsequence is longer than the table says. */
  lemma {:induction false} LcsIsBound(same: Same, a: seq<Lost>, b: seq<Lost>, ps: seq<(nat, nat)>)
    requires CommonSubsequence(same, a, b, ps)
    ensures |ps| <= Lcs(same, a, b)
    decreases |a| + |b|
  {
    if ps != [] {
      var n := |ps| - 1;
      assert ps[n].0 < |a| && ps[n].1 < |b|;
      var a', b' := a[..|a| - 1], b[..|b| - 1];
      if same(a[|a| - 1].line, b[|b| - 1].line) {
        forall k | 0 <= k < n ensures ps[k].0 < |a'| && ps[k].1 < |b'| {
          assert ps[k].0 < ps[n].0 && ps[k].1 < ps[n].1;
        }
        LcsIsBound(same, a', b', ps[..n]);
      } else if ps[n].0 < |a'| {
        LcsIsBound(same, a', b, ps);
      } else {
        LcsIsBound(same, a, b', ps);
      }
    }
  }

  /** Some common subsequence is as long as the table says. */
  lemma {:induction false} LcsIsReached(same: Same, a: seq<Lost>, b: seq<Lost>) returns (ps: seq<(nat, nat)>)
    ensures CommonSubsequence(same, a, b, ps) && |ps| == Lcs(same, a, b)
    decreases |a| + |b|
  {
    if a == [] || b == [] {
      ps := [];
    } else if same(a[|a| - 1].line, b[|b| - 1].line) {
      ps := LcsIsReached(same, a[..|a| - 1], b[..|b| - 1]);
      ps := ps + [(|a| - 1, |b| - 1)];
    } else if Lcs(same, a, b[..|b| - 1]) >= Lcs(same, a[..|a| - 1], b) {
      ps := LcsIsReached(same, a, b[..|b| - 1]);
    } else {
      ps := LcsIsReached(same, a[..|a| - 1], b);
    }
  }

  // ---- What the merge keeps -----------------------------------------------------------------

  /** The lines a given parent had, in order. */
  function ViewOf(s: seq<Lost>, parent: nat): seq<string> {
    if s == [] then []
    else ViewOf(s[..|s| - 1], parent) + if parent in s[|s| - 1].parents then [s[|s| - 1].line] else []
  }

  function Lines(s: seq<Lost>): seq<string> {
    seq(|s|, i requires 0 <= i < |s| => s[i].line)
  }

  lemma ViewAppend(s: seq<Lost>, l: Lost, parent: nat)
    ensures ViewOf(s + [l], parent) == ViewOf(s, parent) + if parent in l.parents then [l.line] else []
  {
    assert (s + [l])[..|s|] == s;
  }

  /** The merge stores every line once, except that the longest common subsequence is shared. */
  lemma {:induction false} MergeLength(same: Same, a: seq<Lost>, b: seq<Lost>, parent: nat)
    ensures |Merge(same, a, b, parent)| + Lcs(same, a, b) == |a| + |b|
    decreases |a| + |b|
  {
    if a != [] || b != [] {
      match Step(same, a, b)
      case MATCH => MergeLength(same, a[..|a| - 1], b[..|b| - 1], parent);
      case NEW => MergeLength(same, a, b[..|b| - 1], parent);
      case BASE => MergeLength(same, a[..|a| - 1], b, parent);
    }
  }

  ghost predicate NothingShared(same: Same, a: seq<Lost>, b: seq<Lost>) {
    forall x, y :: x in a && y in b ==> !same(x.line, y.line)
  }

  lemma {:induction false} NoneShared(same: Same, a: seq<Lost>, b: seq<Lost>)
    requires NothingShared(same, a, b)
    ensures Lcs(same, a, b) == 0
    decreases |a| + |b|
  {
    if a != [] && b != [] {
      assert a[|a| - 1] in a && b[|b| - 1] in b;
      NoneShared(same, a[..|a| - 1], b);
      NoneShared(same, a, b[..|b| - 1]);
    }
  }

  /** Lists that share no line stand one behind the other, the base in front. */
  lemma {:induction false} MergeApart(same: Same, a: seq<Lost>, b: seq<Lost>, parent: nat)
    requires NothingShared(same, a, b)
    ensures Merge(same, a, b, parent) == a + b
    decreases |b|
  {
    if b == [] {
      MergeNothing(same, a, parent);
      assert a + b == a;
    } else {
      var n := |b| - 1;
      MergeApart(same, a, b[..n], parent);
      assert b == b[..n] + [b[n]] && a + b == a + b[..n] + [b[n]];
      if a != [] {
        assert a[|a| - 1] in a && b[n] in b;
        NoneShared(same, a, b[..n]);
        NoneShared(same, a[..|a| - 1], b);
      }
      assert Merge(same, a, b, parent) == Merge(same, a, b[..n], parent) + [b[n]];
    }
  }

  /** Merging with an empty list changes nothing. */
  lemma {:induction false} MergeNothing(same: Same, a: seq<Lost>, parent: nat)
    ensures Merge(same, a, [], parent) == a && Merge(same, [], a, parent) == a
  {
    if a != [] {
      MergeNothing(same, a[..|a| - 1], parent);
    }
  }

  /** An earlier parent still sees exactly the lines it saw in the base list. */
  lemma {:induction false} MergeKeepsView(same: Same, a: seq<Lost>, b: seq<Lost>, parent: nat, m: nat)
    requires m != parent && forall l :: l in b ==> m !in l.parents
    ensures ViewOf(Merge(same, a, b, parent), m) == ViewOf(a, m)
    decreases |a| + |b|
  {
    if a != [] || b != [] {
      match Step(same, a, b)
      case MATCH =>
        MergeKeepsView(same, a[..|a| - 1], b[..|b| - 1], parent, m);
        var l := a[|a| - 1];
        ViewAppend(Merge(same, a[..|a| - 1], b[..|b| - 1], parent), l.(parents := l.parents + {parent}), m);
      case NEW =>
        MergeKeepsView(same, a, b[..|b| - 1], parent, m);
        ViewAppend(Merge(same, a, b[..|b| - 1], parent), b[|b| - 1], m);
      case BASE =>
        MergeKeepsView(same, a[..|a| - 1], b, parent, m);
        ViewAppend(Merge(same, a[..|a| - 1], b, parent), a[|a| - 1], m);
    }
  }

  /** Line by line the same. */
  ghost predicate SameLines(same: Same, s: seq<string>, t: seq<string>) {
    |s| == |t| && forall k :: 0 <= k < |s| ==> s[k] == t[k] || same(s[k], t[k])
  }

  lemma SameLinesAppend(same: Same, s: seq<string>, b: seq<Lost>, line: string)
    requires b != [] && SameLines(same, s, Lines(b[..|b| - 1]))
    requires line == b[|b| - 1].line || same(line, b[|b| - 1].line)
    ensures SameLines(same, s + [line], Lines(b))
  {
    assert Lines(b) == Lines(b[..|b| - 1]) + [b[|b| - 1].line];
  }

  /** The new parent sees its own list, each line as the base list spells it where it was shared. */
  lemma {:induction false} MergeShowsNew(same: Same, a: seq<Lost>, b: seq<Lost>, parent: nat)
    requires forall l :: l in a ==> parent !in l.parents
    requires forall l :: l in b ==> parent in l.parents
    ensures SameLines(same, ViewOf(Merge(same, a, b, parent), parent), Lines(b))
    decreases |a| + |b|
  {
    if a != [] || b != [] {
      match Step(same, a, b)
      case MATCH =>
        MergeShowsNew(same, a[..|a| - 1], b[..|b| - 1], parent);
        var l := a[|a| - 1];
        var shared := Merge(same, a[..|a| - 1], b[..|b| - 1], parent);
        ViewAppend(shared, l.(parents := l.parents + {parent}), parent);
        SameLinesAppend(same, ViewOf(shared, parent), b, l.line);
      case NEW =>
        MergeShowsNew(same, a, b[..|b| - 1], parent);
        var before := Merge(same, a, b[..|b| - 1], parent);
        ViewAppend(before, b[|b| - 1], parent);
        assert b[|b| - 1] in b;
        SameLinesAppend(same, ViewOf(before, parent), b, b[|b| - 1].line);
      case BASE =>
        MergeShowsNew(same, a[..|a| - 1], b, parent);
        ViewAppend(Merge(same, a[..|a| - 1], b, parent), a[|a| - 1], parent);
        assert a[|a| - 1] in a;
    }
  }

  /** Comparing exactly, the new parent sees exactly its own list. */
  lemma MergeShowsNewExactly(a: seq<Lost>, b: seq<Lost>, parent: nat)
    requires forall l :: l in a ==> parent !in l.parents
    requires forall l :: l in b ==> parent in l.parents
    ensures ViewOf(Merge(Exact, a, b, parent), parent) == Lines(b)
  {
    MergeShowsNew(Exact, a, b, parent);
  }

  /** match_string_spaces without whitespace flags. */
  predicate Exact(l1: string, l2: string) {
    l1 == l2
  }
}
