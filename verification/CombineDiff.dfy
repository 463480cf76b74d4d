/** coalesce_lines: a longest-common-subsequence table drives surgery on two doubly linked lists. */
module CombineDiff {
  import opened Basics
  import opened LineMerge

  /** A node of a list of lost lines. */
  class Lline {
    var next: Lline?
    var prev: Lline?
    const line: string
    var parentMap: set<nat>

    constructor (line: string, parentMap: set<nat>)
      ensures this.line == line && this.parentMap == parentMap && next == null && prev == null
    {
      this.line, this.parentMap, next, prev := line, parentMap, null, null;
    }
  }


  ghost function At(s: seq<Lline>, k: int): Lline? {
    if 0 <= k < |s| then s[k] else null
  }

  /** The nodes of `s` are linked in both directions, except for the first node's `prev`. */
  ghost predicate Linked(s: seq<Lline>)
    reads s`next, s`prev
  {
    && Distinct(s)
    && (forall k {:trigger s[k].next} :: 0 <= k < |s| ==> s[k].next == At(s, k + 1))
    && (forall k {:trigger s[k].prev} :: 0 < k < |s| ==> s[k].prev == s[k - 1])
  }

  /** A complete list. */
  ghost predicate List(s: seq<Lline>)
    reads s`next, s`prev
  {
    Linked(s) && (s != [] ==> s[0].prev == null)
  }

  /** What a list says. */
  ghost function Contents(s: seq<Lline>): (c: seq<Lost>)
    reads s`parentMap
    ensures |c| == |s| && forall k :: 0 <= k < |s| ==> c[k] == Lost(s[k].line, s[k].parentMap)
  {
    if s == [] then []
    else Contents(s[..|s| - 1]) + [Lost(s[|s| - 1].line, s[|s| - 1].parentMap)]
  }

  ghost predicate Apart(s: seq<Lline>, t: seq<Lline>) {
    forall i, j :: 0 <= i < |s| && 0 <= j < |t| ==> s[i] != t[j]
  }

  // ---- Surgery ------------------------------------------------------------------------------

  /** Take the node at `k` out of its list. Its own links are left as they were. */
  method Unlink(ghost s: seq<Lline>, ghost k: nat, lline: Lline)
    requires Linked(s) && k < |s| && s[k] == lline && (k == 0 ==> lline.prev == null)
    modifies s`next, s`prev
    ensures Linked(s[..k] + s[k + 1..])
    ensures lline.next == old(lline.next) && lline.prev == old(lline.prev)
    ensures k != 0 ==> s[0].prev == old(s[0].prev)
    ensures k == 0 && |s| > 1 ==> s[1].prev == null
  {
    if lline.prev != null {
      lline.prev.next := lline.next;
    }
    if lline.next != null {
      lline.next.prev := lline.prev;
    }
  }

  /** Put a node into a list behind its first `k` nodes; in front, its own `prev` is left as it was. */
  method LinkIn(ghost s: seq<Lline>, ghost k: nat, base0: Lline?, baseend: Lline?, lline: Lline) returns (base: Lline?)
    requires Linked(s) && k <= |s| && lline !in s
    requires base0 == At(s, 0) && baseend == At(s, k - 1)
    modifies s`next, s`prev, lline`next, lline`prev
    ensures Linked(s[..k] + [lline] + s[k..]) && base == At(s[..k] + [lline] + s[k..], 0)
    ensures k == 0 ==> lline.prev == old(lline.prev)
    ensures k > 0 ==> s[0].prev == old(s[0].prev)
  {
    base := base0;
    if baseend != null {
      lline.next := baseend.next;
      lline.prev := baseend;
      baseend.next := lline;
    } else {
      lline.next := base;
      base := lline;
    }
    if lline.next != null {
      lline.next.prev := lline;
    }
  }

  // ---- The walk back through the table ------------------------------------------------------

  /**
   * The links while the walk stands before base position `i` and new position `j`. `X` is the base
   * list as it is now, its nodes from `i` on merged; `Y` is what is left of the new list, its nodes
   * from `j` on matched. The first merged node may still point back into the new list, as long as the
   * walk is about to repair that.
   */
  ghost predicate Walking(X: seq<Lline>, Y: seq<Lline>, i: nat, j: nat)
    reads X`next, X`prev, Y`next, Y`prev
  {
    && i <= |X| && j <= |Y| && Linked(X) && Linked(Y) && Apart(X, Y)
    && (i > 0 ==> X[0].prev == null) && (j > 0 ==> Y[0].prev == null)
    && (i == 0 && X != [] ==> X[0].prev == null || X[0].prev == At(Y, j - 1))
  }

  /** A sequence with `x` put in at `k`. */
  function With<T>(s: seq<T>, k: nat, x: T): seq<T>
    requires k <= |s|
  {
    s[..k] + [x] + s[k..]
  }


  /** A new line is unhooked from its list and hooked into the base list. */
  method TakeNew(ghost X: seq<Lline>, ghost Y: seq<Lline>, ghost i: nat, ghost j: nat, base0: Lline?, baseend: Lline?,
      newend: Lline)
    returns (base: Lline?, newend': Lline?)
    requires Walking(X, Y, i, j) && j > 0
    requires newend == Y[j - 1] && base0 == At(X, 0) && baseend == At(X, i - 1)
    modifies X`next, X`prev, Y`next, Y`prev
    ensures Walking(With(X, i, newend), Without(Y, j - 1), i, j - 1)
    ensures base == At(With(X, i, newend), 0) && newend' == At(Y, j - 2)
  {
    newend' := newend.prev;
    Unlink(Y, j - 1, newend);
    base := LinkIn(X, i, base0, baseend, newend);
  }

  // ---- Filling the table --------------------------------------------------------------------

  /** The table entry for the first `x` base lines and the first `y` new lines. */
  ghost function LcsAt(same: Same, a: seq<Lost>, b: seq<Lost>, x: nat, y: nat): nat
    requires x <= |a| && y <= |b|
  {
    Lcs(same, a[..x], b[..y])
  }

  ghost function StepAt(same: Same, a: seq<Lost>, b: seq<Lost>, x: nat, y: nat): Direction
    requires x <= |a| && y <= |b|
  {
    Step(same, a[..x], b[..y])
  }

  lemma EntryFollows(same: Same, a: seq<Lost>, b: seq<Lost>, x: nat, y: nat)
    requires 0 < x <= |a| && 0 < y <= |b|
    ensures same(a[x - 1].line, b[y - 1].line) ==>
      LcsAt(same, a, b, x, y) == 1 + LcsAt(same, a, b, x - 1, y - 1) && StepAt(same, a, b, x, y) == MATCH
    ensures !same(a[x - 1].line, b[y - 1].line) && LcsAt(same, a, b, x, y - 1) >= LcsAt(same, a, b, x - 1, y) ==>
      LcsAt(same, a, b, x, y) == LcsAt(same, a, b, x, y - 1) && StepAt(same, a, b, x, y) == NEW
    ensures !same(a[x - 1].line, b[y - 1].line) && LcsAt(same, a, b, x, y - 1) < LcsAt(same, a, b, x - 1, y) ==>
      LcsAt(same, a, b, x, y) == LcsAt(same, a, b, x - 1, y) && StepAt(same, a, b, x, y) == BASE
  {
    assert a[..x][..x - 1] == a[..x - 1] && b[..y][..y - 1] == b[..y - 1];
  }

  /** Filling goes row by row; the first column is there from the start. */
  predicate Before(x: nat, y: nat, i: nat, j: nat) {
    y == 0 || x < i || (x == i && y < j)
  }

  ghost predicate LcsFilled(same: Same, lcs: array2<nat>, a: seq<Lost>, b: seq<Lost>, i: nat, j: nat)
    reads lcs
  {
    && lcs.Length0 == |a| + 1 && lcs.Length1 == |b| + 1
    && forall x: nat, y: nat :: x <= |a| && y <= |b| && Before(x, y, i, j) ==> lcs[x, y] == LcsAt(same, a, b, x, y)
  }

  ghost predicate DirectionsFilled(same: Same, directions: array2<Direction>, a: seq<Lost>, b: seq<Lost>, i: nat,
      j: nat)
    reads directions
  {
    && directions.Length0 == |a| + 1 && directions.Length1 == |b| + 1
    && forall x: nat, y: nat :: x <= |a| && y <= |b| && Before(x, y, i, j) ==>
      directions[x, y] == StepAt(same, a, b, x, y)
  }

  /** One cell of the table. */
  method FillCell(same: Same, lcs: array2<nat>, directions: array2<Direction>, i: nat, j: nat, line1: string,
      line2: string, ghost a: seq<Lost>, ghost b: seq<Lost>)
    requires 1 <= i <= |a| && 1 <= j <= |b| && a[i - 1].line == line1 && b[j - 1].line == line2
    requires LcsFilled(same, lcs, a, b, i, j) && DirectionsFilled(same, directions, a, b, i, j)
    modifies lcs, directions
    ensures LcsFilled(same, lcs, a, b, i, j + 1) && DirectionsFilled(same, directions, a, b, i, j + 1)
  {
    EntryFollows(same, a, b, i, j);
    if same(line1, line2) {
      lcs[i, j] := lcs[i - 1, j - 1] + 1;
      directions[i, j] := MATCH;
    } else if lcs[i, j - 1] >= lcs[i - 1, j] {
      lcs[i, j] := lcs[i, j - 1];
      directions[i, j] := NEW;
    } else {
      lcs[i, j] := lcs[i - 1, j];
      directions[i, j] := BASE;
    }
  }

  /** The node a pointer stands on that stops at the end of its list. */
  ghost predicate Standing(s: seq<Lline>, k: nat, node: Lline) {
    s != [] && node == s[if k < |s| then k else |s| - 1]
  }

  /** One row: compare one base line with every new line. */
  method FillRow(same: Same, lcs: array2<nat>, directions: array2<Direction>, i: nat, baseend: Lline, new0: Lline,
      ghost N: seq<Lline>, ghost a: seq<Lost>, ghost b: seq<Lost>)
    returns (newend: Lline)
    requires 1 <= i <= |a| && a[i - 1].line == baseend.line
    requires List(N) && N != [] && new0 == N[0] && b == Contents(N)
    requires LcsFilled(same, lcs, a, b, i, 1) && DirectionsFilled(same, directions, a, b, i, 1)
    modifies lcs, directions
    ensures newend == N[|N| - 1]
    ensures LcsFilled(same, lcs, a, b, i + 1, 1) && DirectionsFilled(same, directions, a, b, i + 1, 1)
  {
    newend := new0;
    var j := 1;
    while j < lcs.Length1
      invariant 1 <= j <= |b| + 1 && Standing(N, j - 1, newend)
      invariant LcsFilled(same, lcs, a, b, i, j) && DirectionsFilled(same, directions, a, b, i, j)
    {
      FillCell(same, lcs, directions, i, j, baseend.line, newend.line, a, b);
      if newend.next != null {
        newend := newend.next;
      }
      j := j + 1;
    }
  }

  /** The tables with their first row and column. */
  method NewTables(same: Same, lenbase: nat, lennew: nat, ghost a: seq<Lost>, ghost b: seq<Lost>)
    returns (lcs: array2<nat>, directions: array2<Direction>)
    requires |a| == lenbase && |b| == lennew
    ensures fresh(lcs) && fresh(directions)
    ensures LcsFilled(same, lcs, a, b, 1, 1) && DirectionsFilled(same, directions, a, b, 1, 1)
  {
    lcs := new nat[lenbase + 1, lennew + 1]((_, _) => 0);
    directions :=
      new Direction[lenbase + 1, lennew + 1]((x, y) => if y == 0 then BASE else if x == 0 then NEW else MATCH);
  }

  /** The table, and the ends of both lists. */
  method FillTable(same: Same, base: Lline, new0: Lline, lenbase: nat, lennew: nat, ghost B: seq<Lline>,
      ghost N: seq<Lline>)
    returns (directions: array2<Direction>, baseend: Lline, newend: Lline)
    requires List(B) && B != [] && base == B[0] && lenbase == |B|
    requires List(N) && N != [] && new0 == N[0] && lennew == |N|
    ensures fresh(directions)
    ensures DirectionsFilled(same, directions, Contents(B), Contents(N), |B| + 1, 1)
    ensures baseend == B[|B| - 1] && newend == N[|N| - 1]
  {
    ghost var a, b := Contents(B), Contents(N);
    var lcs;
    lcs, directions := NewTables(same, lenbase, lennew, a, b);
    baseend, newend := base, new0;
    var i := 1;
    while i < lcs.Length0
      invariant 1 <= i <= |a| + 1 && Standing(B, i - 1, baseend) && (i > 1 ==> newend == N[|N| - 1])
      invariant LcsFilled(same, lcs, a, b, i, 1) && DirectionsFilled(same, directions, a, b, i, 1)
    {
      newend := FillRow(same, lcs, directions, i, baseend, new0, N, a, b);
      if baseend.next != null {
        baseend := baseend.next;
      }
      i := i + 1;
    }
  }

  // ---- Walking back -------------------------------------------------------------------------

  /** The merge of everything is the merge of what is left, followed by `tail`. */
  ghost predicate Merged(same: Same, parent: nat, a: seq<Lost>, b: seq<Lost>, i: nat, j: nat, tail: seq<Lost>) {
    i <= |a| && j <= |b| && Merge(same, a, b, parent) == Merge(same, a[..i], b[..j], parent) + tail
  }

  lemma MergedMatch(same: Same, parent: nat, a: seq<Lost>, b: seq<Lost>, i: nat, j: nat, tail: seq<Lost>)
    requires Merged(same, parent, a, b, i, j, tail) && (i != 0 || j != 0) && StepAt(same, a, b, i, j) == MATCH
    ensures i > 0 && j > 0
    ensures Merged(same, parent, a, b, i - 1, j - 1, [a[i - 1].(parents := a[i - 1].parents + {parent})] + tail)
  {
    assert a[..i][..i - 1] == a[..i - 1] && b[..j][..j - 1] == b[..j - 1];
    Assoc(Merge(same, a[..i - 1], b[..j - 1], parent), [a[i - 1].(parents := a[i - 1].parents + {parent})], tail);
  }

  lemma MergedNew(same: Same, parent: nat, a: seq<Lost>, b: seq<Lost>, i: nat, j: nat, tail: seq<Lost>)
    requires Merged(same, parent, a, b, i, j, tail) && (i != 0 || j != 0) && StepAt(same, a, b, i, j) == NEW
    ensures j > 0 && Merged(same, parent, a, b, i, j - 1, [b[j - 1]] + tail)
  {
    assert b[..j][..j - 1] == b[..j - 1];
    Assoc(Merge(same, a[..i], b[..j - 1], parent), [b[j - 1]], tail);
  }

  lemma MergedBase(same: Same, parent: nat, a: seq<Lost>, b: seq<Lost>, i: nat, j: nat, tail: seq<Lost>)
    requires Merged(same, parent, a, b, i, j, tail) && (i != 0 || j != 0) && StepAt(same, a, b, i, j) == BASE
    ensures i > 0 && Merged(same, parent, a, b, i - 1, j, [a[i - 1]] + tail)
  {
    assert i > 0;
    assert a[..i][..i - 1] == a[..i - 1];
    Assoc(Merge(same, a[..i - 1], b[..j], parent), [a[i - 1]], tail);
  }

  /** What the lists say: the first `i` and `j` lines are still to be merged, the rest of the base list is merged. */
  ghost predicate Data(same: Same, parent: nat, a: seq<Lost>, b: seq<Lost>, i: nat, j: nat, c: seq<Lost>,
      d: seq<Lost>)
  {
    && i <= |a| && j <= |b| && i <= |c| && j <= |d|
    && c[..i] == a[..i] && d[..j] == b[..j] && Merged(same, parent, a, b, i, j, c[i..])
  }

  lemma DataMatch(same: Same, parent: nat, a: seq<Lost>, b: seq<Lost>, i: nat, j: nat, c: seq<Lost>, d: seq<Lost>)
    requires Data(same, parent, a, b, i, j, c, d) && (i != 0 || j != 0) && StepAt(same, a, b, i, j) == MATCH
    ensures i > 0 && j > 0
    ensures Data(same, parent, a, b, i - 1, j - 1, c[i - 1 := c[i - 1].(parents := c[i - 1].parents + {parent})], d)
  {
    MergedMatch(same, parent, a, b, i, j, c[i..]);
    assert c[..i][..i - 1] == c[..i - 1] && d[..j][..j - 1] == d[..j - 1] && c[..i][i - 1] == c[i - 1];
    var x := c[i - 1].(parents := c[i - 1].parents + {parent});
    assert c[i - 1 := x][i - 1..] == [x] + c[i..] && c[i - 1 := x][..i - 1] == c[..i - 1];
    assert a[..i][..i - 1] == a[..i - 1] && b[..j][..j - 1] == b[..j - 1] && a[..i][i - 1] == a[i - 1];
  }

  lemma DataBase(same: Same, parent: nat, a: seq<Lost>, b: seq<Lost>, i: nat, j: nat, c: seq<Lost>, d: seq<Lost>)
    requires Data(same, parent, a, b, i, j, c, d) && (i != 0 || j != 0) && StepAt(same, a, b, i, j) == BASE
    ensures i > 0 && Data(same, parent, a, b, i - 1, j, c, d)
  {
    MergedBase(same, parent, a, b, i, j, c[i..]);
    assert c[..i][..i - 1] == c[..i - 1] && a[..i][..i - 1] == a[..i - 1];
    assert c[i - 1..] == [c[..i][i - 1]] + c[i..] && a[..i][i - 1] == a[i - 1];
  }

  lemma DataNew(same: Same, parent: nat, a: seq<Lost>, b: seq<Lost>, i: nat, j: nat, c: seq<Lost>, d: seq<Lost>)
    requires Data(same, parent, a, b, i, j, c, d) && (i != 0 || j != 0) && StepAt(same, a, b, i, j) == NEW
    ensures j > 0 && Data(same, parent, a, b, i, j - 1, With(c, i, d[j - 1]), Without(d, j - 1))
  {
    MergedNew(same, parent, a, b, i, j, c[i..]);
    assert d[..j][j - 1] == d[j - 1] && b[..j][j - 1] == b[j - 1];
    assert With(c, i, d[j - 1])[i..] == [d[j - 1]] + c[i..] && With(c, i, d[j - 1])[..i] == c[..i];
    assert Without(d, j - 1)[..j - 1] == d[..j][..j - 1] && b[..j][..j - 1] == b[..j - 1];
  }

  /** The pointers of the walk: the head of the base list and the nodes before the two positions. */
  ghost predicate Pointers(X: seq<Lline>, Y: seq<Lline>, i: nat, j: nat, base: Lline?, baseend: Lline?,
      newend: Lline?)
  {
    base == At(X, 0) && baseend == At(X, i - 1) && newend == At(Y, j - 1)
  }

  /** MATCH: the base node gains the new parent (`baseend->parent_map |= 1<<parent`), and both ends step back. */
  method StepMatch(parent: nat, ghost X: seq<Lline>, ghost Y: seq<Lline>, ghost i: nat, ghost j: nat,
      ghost base: Lline?, baseend0: Lline, newend0: Lline)
    returns (baseend: Lline?, newend: Lline?)
    requires Walking(X, Y, i, j) && i > 0 && j > 0 && Pointers(X, Y, i, j, base, baseend0, newend0)
    modifies baseend0`parentMap
    ensures Walking(X, Y, i - 1, j - 1) && Pointers(X, Y, i - 1, j - 1, base, baseend, newend)
    ensures Contents(Y) == old(Contents(Y))
    ensures var x := old(Contents(X))[i - 1];
      Contents(X) == old(Contents(X))[i - 1 := x.(parents := x.parents + {parent})]
  {
    baseend0.parentMap := baseend0.parentMap + {parent};
    baseend, newend := baseend0.prev, newend0.prev;
  }

  /** NEW: the new node moves into the base list. */
  method StepNew(ghost X: seq<Lline>, ghost Y: seq<Lline>, ghost i: nat, ghost j: nat, base0: Lline?, baseend: Lline?,
      newend0: Lline)
    returns (base: Lline?, newend: Lline?, ghost X': seq<Lline>, ghost Y': seq<Lline>)
    requires Walking(X, Y, i, j) && j > 0 && Pointers(X, Y, i, j, base0, baseend, newend0)
    modifies X`next, X`prev, Y`next, Y`prev
    ensures Walking(X', Y', i, j - 1) && Pointers(X', Y', i, j - 1, base, baseend, newend)
    ensures X' == With(X, i, newend0) && Y' == Without(Y, j - 1)
    ensures Contents(X') == With(old(Contents(X)), i, old(Contents(Y))[j - 1])
    ensures Contents(Y') == Without(old(Contents(Y)), j - 1)
  {
    X', Y' := With(X, i, newend0), Without(Y, j - 1);
    base, newend := TakeNew(X, Y, i, j, base0, baseend, newend0);
    ContentsWith(X, i, newend0);
    ContentsWithout(Y, j - 1);
  }

  lemma {:induction false} ContentsConcat(s: seq<Lline>, t: seq<Lline>)
    ensures Contents(s + t) == Contents(s) + Contents(t)
  {
    if t == [] {
      assert s + t == s;
    } else {
      ContentsConcat(s, t[..|t| - 1]);
      assert (s + t)[..|s + t| - 1] == s + t[..|t| - 1];
    }
  }

  lemma ContentsSplit(s: seq<Lline>, k: nat)
    requires k <= |s|
    ensures Contents(s[..k]) == Contents(s)[..k] && Contents(s[k..]) == Contents(s)[k..]
  {
    assert s == s[..k] + s[k..];
    ContentsConcat(s[..k], s[k..]);
  }

  lemma ContentsWith(s: seq<Lline>, k: nat, x: Lline)
    requires k <= |s|
    ensures Contents(With(s, k, x)) == With(Contents(s), k, Lost(x.line, x.parentMap))
  {
    ContentsSplit(s, k);
    ContentsConcat(s[..k], [x]);
    ContentsConcat(s[..k] + [x], s[k..]);
    assert Contents([x]) == [Lost(x.line, x.parentMap)];
  }

  lemma ContentsWithout(s: seq<Lline>, k: nat)
    requires k < |s|
    ensures Contents(Without(s, k)) == Without(Contents(s), k)
  {
    ContentsSplit(s, k);
    ContentsSplit(s, k + 1);
    ContentsConcat(s[..k], s[k + 1..]);
  }

  ghost predicate Within(s: seq<Lline>, all: set<Lline>) {
    forall k :: 0 <= k < |s| ==> s[k] in all
  }

  lemma WithinNew(X: seq<Lline>, Y: seq<Lline>, i: nat, j: nat, all: set<Lline>)
    requires Within(X, all) && Within(Y, all) && i <= |X| && 0 < j <= |Y|
    ensures Within(With(X, i, Y[j - 1]), all) && Within(Without(Y, j - 1), all)
  {}

  /** Everything the walk keeps. */
  ghost predicate WalkState(same: Same, parent: nat, a: seq<Lost>, b: seq<Lost>, all: set<Lline>, X: seq<Lline>,
      Y: seq<Lline>, i: nat, j: nat, base: Lline?, baseend: Lline?, newend: Lline?)
    reads all, X, Y
  {
    && Within(X, all) && Within(Y, all)
    && Walking(X, Y, i, j) && Pointers(X, Y, i, j, base, baseend, newend)
    && Data(same, parent, a, b, i, j, Contents(X), Contents(Y))
  }

  method DoMatch(same: Same, parent: nat, ghost a: seq<Lost>, ghost b: seq<Lost>, ghost all: set<Lline>,
      ghost X: seq<Lline>, ghost Y: seq<Lline>, ghost i: nat, ghost j: nat, ghost base: Lline?, baseend0: Lline?,
      newend0: Lline?)
    returns (baseend: Lline?, newend: Lline?)
    requires WalkState(same, parent, a, b, all, X, Y, i, j, base, baseend0, newend0)
    requires i <= |a| && j <= |b| && (i != 0 || j != 0) && StepAt(same, a, b, i, j) == MATCH
    modifies all
    ensures i > 0 && j > 0 && WalkState(same, parent, a, b, all, X, Y, i - 1, j - 1, base, baseend, newend)
  {
    DataMatch(same, parent, a, b, i, j, Contents(X), Contents(Y));
    baseend, newend := StepMatch(parent, X, Y, i, j, base, baseend0, newend0);
  }

  method DoNew(same: Same, parent: nat, ghost a: seq<Lost>, ghost b: seq<Lost>, ghost all: set<Lline>,
      ghost X: seq<Lline>, ghost Y: seq<Lline>, ghost i: nat, ghost j: nat, base0: Lline?, baseend: Lline?,
      newend0: Lline?)
    returns (base: Lline?, newend: Lline?, ghost X': seq<Lline>, ghost Y': seq<Lline>)
    requires WalkState(same, parent, a, b, all, X, Y, i, j, base0, baseend, newend0)
    requires i <= |a| && j <= |b| && (i != 0 || j != 0) && StepAt(same, a, b, i, j) == NEW
    modifies all
    ensures j > 0 && WalkState(same, parent, a, b, all, X', Y', i, j - 1, base, baseend, newend)
    ensures |X'| == |X| + 1
  {
    hide Data, Linked, Apart;
    DataNew(same, parent, a, b, i, j, Contents(X), Contents(Y));
    WithinNew(X, Y, i, j, all);
    base, newend, X', Y' := StepNew(X, Y, i, j, base0, baseend, newend0);
  }

  lemma DoBase(same: Same, parent: nat, a: seq<Lost>, b: seq<Lost>, all: set<Lline>, X: seq<Lline>, Y: seq<Lline>,
      i: nat, j: nat, base: Lline?, baseend: Lline?, newend: Lline?)
    requires WalkState(same, parent, a, b, all, X, Y, i, j, base, baseend, newend)
    requires i <= |a| && j <= |b| && (i != 0 || j != 0) && StepAt(same, a, b, i, j) == BASE
    ensures i > 0 && baseend != null && WalkState(same, parent, a, b, all, X, Y, i - 1, j, base, baseend.prev, newend)
  {
    DataBase(same, parent, a, b, i, j, Contents(X), Contents(Y));
  }

  /** The walk from the ends of both lists to their beginnings. */
  method WalkBack(same: Same, parent: nat, directions: array2<Direction>, base0: Lline, baseend0: Lline, newend0: Lline,
      lenbase0: nat, lennew: nat, ghost B: seq<Lline>, ghost N: seq<Lline>, ghost all: set<Lline>)
    returns (base: Lline?, lenbase: nat, ghost X: seq<Lline>)
    requires lenbase0 == |B| > 0 && lennew == |N| > 0
    requires WalkState(same, parent, Contents(B), Contents(N), all, B, N, |B|, |N|, base0, baseend0, newend0)
    requires DirectionsFilled(same, directions, Contents(B), Contents(N), |B| + 1, 1)
    modifies all
    ensures List(X) && Within(X, all) && base == At(X, 0) && lenbase == |X|
    ensures Contents(X) == Merge(same, old(Contents(B)), old(Contents(N)), parent)
  {
    hide WalkState;
    ghost var a, b := Contents(B), Contents(N);
    ghost var Y := N;
    var i: nat, j: nat := lenbase0, lennew;
    var baseend: Lline?, newend: Lline? := baseend0, newend0;
    base, lenbase, X := base0, lenbase0, B;
    while i != 0 || j != 0
      invariant WalkState(same, parent, a, b, all, X, Y, i, j, base, baseend, newend) && lenbase == |X|
      invariant i <= |a| && j <= |b|
      invariant DirectionsFilled(same, directions, a, b, |a| + 1, 1)
      decreases i + j
    {
      assert Before(i, j, |a| + 1, 1) && directions[i, j] == StepAt(same, a, b, i, j);
      i, j, base, lenbase, baseend, newend, X, Y :=
        WalkStep(same, parent, directions[i, j], a, b, all, X, Y, i, j, base, lenbase, baseend, newend);
    }
    WalkEnds(same, parent, a, b, all, X, Y, base, baseend, newend);
  }

  /** One step of the walk. */
  method WalkStep(same: Same, parent: nat, direction: Direction, ghost a: seq<Lost>, ghost b: seq<Lost>,
      ghost all: set<Lline>, ghost X0: seq<Lline>, ghost Y0: seq<Lline>, i0: nat, j0: nat, base0: Lline?,
      lenbase0: nat, baseend0: Lline?, newend0: Lline?)
    returns (i: nat, j: nat, base: Lline?, lenbase: nat, baseend: Lline?, newend: Lline?, ghost X: seq<Lline>,
      ghost Y: seq<Lline>)
    requires WalkState(same, parent, a, b, all, X0, Y0, i0, j0, base0, baseend0, newend0) && lenbase0 == |X0|
    requires i0 <= |a| && j0 <= |b| && (i0 != 0 || j0 != 0) && direction == StepAt(same, a, b, i0, j0)
    modifies all
    ensures WalkState(same, parent, a, b, all, X, Y, i, j, base, baseend, newend) && lenbase == |X|
    ensures i <= i0 && j <= j0 && i + j < i0 + j0
  {
    hide WalkState;
    i, j, base, lenbase, baseend, newend, X, Y := i0, j0, base0, lenbase0, baseend0, newend0, X0, Y0;
    if direction == MATCH {
      baseend, newend := DoMatch(same, parent, a, b, all, X, Y, i, j, base, baseend, newend);
      i, j := i - 1, j - 1;
    } else if direction == NEW {
      base, newend, X, Y := DoNew(same, parent, a, b, all, X, Y, i, j, base, baseend, newend);
      j, lenbase := j - 1, lenbase + 1;
    } else {
      DoBase(same, parent, a, b, all, X, Y, i, j, base, baseend, newend);
      baseend := baseend.prev;
      i := i - 1;
    }
  }

  lemma WalkEnds(same: Same, parent: nat, a: seq<Lost>, b: seq<Lost>, all: set<Lline>, X: seq<Lline>, Y: seq<Lline>,
      base: Lline?, baseend: Lline?, newend: Lline?)
    requires WalkState(same, parent, a, b, all, X, Y, 0, 0, base, baseend, newend)
    ensures List(X) && Within(X, all) && base == At(X, 0) && Contents(X) == Merge(same, a, b, parent)
  {
    DataEnds(same, parent, a, b, Contents(X), Contents(Y));
  }

  lemma DataStarts(same: Same, parent: nat, a: seq<Lost>, b: seq<Lost>)
    ensures Data(same, parent, a, b, |a|, |b|, a, b)
  {
    assert a[..|a|] == a && b[..|b|] == b && a[|a|..] == [];
    assert Merge(same, a, b, parent) + [] == Merge(same, a, b, parent);
  }

  lemma DataEnds(same: Same, parent: nat, a: seq<Lost>, b: seq<Lost>, c: seq<Lost>, d: seq<Lost>)
    requires Data(same, parent, a, b, 0, 0, c, d)
    ensures c == Merge(same, a, b, parent)
  {
    assert c[0..] == c && a[..0] == [] && b[..0] == [] && [] + c == c;
  }

  /** Two complete lists, and the pointers to both ends, are where the walk starts. */
  lemma WalkStarts(same: Same, parent: nat, all: set<Lline>, B: seq<Lline>, N: seq<Lline>, base: Lline, baseend: Lline,
      newend: Lline)
    requires List(B) && List(N) && Apart(B, N) && B != [] && N != [] && Within(B, all) && Within(N, all)
    requires base == B[0] && baseend == B[|B| - 1] && newend == N[|N| - 1]
    ensures WalkState(same, parent, Contents(B), Contents(N), all, B, N, |B|, |N|, base, baseend, newend)
  {
    DataStarts(same, parent, Contents(B), Contents(N));
  }

  /**
   * coalesce_lines: splice the new list into the base list along a longest common subsequence. The
   * result is a well-linked list of nodes of both lists that says exactly what the merge says.
   */
  method CoalesceLines(same: Same, base0: Lline?, lenbase0: nat, new0: Lline?, lennew: nat, parent: nat,
      ghost B: seq<Lline>, ghost N: seq<Lline>, ghost all: set<Lline>)
    returns (base: Lline?, lenbase: nat, ghost R: seq<Lline>)
    requires List(B) && List(N) && Apart(B, N) && Within(B, all) && Within(N, all)
    requires base0 == At(B, 0) && lenbase0 == |B| && new0 == At(N, 0) && lennew == |N|
    modifies all
    ensures List(R) && Within(R, all) && base == At(R, 0) && lenbase == |R|
    ensures Contents(R) == Merge(same, old(Contents(B)), old(Contents(N)), parent)
  {
    if new0 == null {
      MergeNothing(same, Contents(B), parent);
      return base0, lenbase0, B;
    }
    if base0 == null {
      MergeNothing(same, Contents(N), parent);
      return new0, lennew, N;
    }
    var directions, baseend, newend := FillTable(same, base0, new0, lenbase0, lennew, B, N);
    WalkStarts(same, parent, all, B, N, base0, baseend, newend);
    base, lenbase, R := WalkBack(same, parent, directions, base0, baseend, newend, lenbase0, lennew, B, N, all);
  }
}
