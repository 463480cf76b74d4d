/** The paint walk of merge-base computation (paint_down_to_common), for every order of queue pops. */
module Painting {
  import opened Basics
  import opened CommitGraph
  import opened CommitMarks

  const SIDES: set<Flag> := {Parent1, Parent2}
  const PAINT: set<Flag> := {Parent1, Parent2, Stale}
  const ALL_FLAGS: set<Flag> := {Parent1, Parent2, Stale, Result}

  /** `c` is `one` or its ancestor, and also some member of `twos` or its ancestor. */
  ghost predicate Common(G: set<Commit>, one: Commit, twos: set<Commit>, c: Commit) {
    Reach(G, one, c) && c in ReachSet(G, twos)
  }

  /** A common ancestor that is not a proper ancestor of another common ancestor. */
  ghost predicate Best(G: set<Commit>, one: Commit, twos: set<Commit>, c: Commit) {
    && Common(G, one, twos, c)
    && forall d :: d in G && Common(G, one, twos, d) && Reach(G, d, c) ==> d == c
  }

  /** No commit carries a paint flag. */
  ghost predicate Unpainted(G: set<Commit>)
    reads G
  {
    forall c, f :: c in G && f in c.flags ==> f !in ALL_FLAGS
  }

  /** Apart from the paint flags, every commit keeps the flags it had. */
  twostate predicate OnlyPainted(G: set<Commit>)
    reads G
  {
    && (forall c, f {:trigger f in c.flags} {:trigger f in old(c.flags)} :: c in G && f in old(c.flags) ==>
         f in ALL_FLAGS || f in c.flags)
    && (forall c, f {:trigger f in c.flags} {:trigger f in old(c.flags)} :: c in G && f in c.flags ==>
         f in ALL_FLAGS || f in old(c.flags))
  }

  /** Flags only grow, and only by the bits a commit pushes to its parents. */
  twostate predicate OnlyPushed(G: set<Commit>)
    reads G
  {
    && (forall c, f {:trigger f in c.flags} {:trigger f in old(c.flags)} :: c in G && f in old(c.flags) ==>
         f in c.flags)
    && (forall c, f {:trigger f in c.flags} {:trigger f in old(c.flags)} :: c in G && f in c.flags ==>
         f in PAINT || f in old(c.flags))
  }

  /** Flags only grow, and only by paint flags. */
  twostate predicate OnlyGrown(G: set<Commit>)
    reads G
  {
    && (forall c, f {:trigger f in c.flags} {:trigger f in old(c.flags)} :: c in G && f in old(c.flags) ==>
         f in c.flags)
    && (forall c, f {:trigger f in c.flags} {:trigger f in old(c.flags)} :: c in G && f in c.flags ==>
         f in ALL_FLAGS || f in old(c.flags))
  }

  // ---- Date-ordered lists -------------------------------------------------------------------

  /** Newest first. */
  predicate ByDate(s: seq<Commit>) {
    forall i, j :: 0 <= i < j < |s| ==> s[i].date >= s[j].date
  }

  /** `r` is `list` with `c` put in at position `k`, behind every commit that is not older. */
  ghost predicate InsertedAt(list: seq<Commit>, c: Commit, k: nat, r: seq<Commit>) {
    && k <= |list| && |r| == |list| + 1 && r[k] == c
    && (forall i :: 0 <= i < k ==> r[i] == list[i] && list[i].date >= c.date)
    && (forall i :: k <= i < |list| ==> r[i + 1] == list[i] && list[i].date < c.date)
  }

  /** commit_list_insert_by_date. */
  method InsertByDate(c: Commit, list: seq<Commit>) returns (r: seq<Commit>, ghost k: nat)
    requires ByDate(list)
    ensures ByDate(r) && InsertedAt(list, c, k, r)
  {
    var i := 0;
    while i < |list| && list[i].date >= c.date
      invariant 0 <= i <= |list|
      invariant forall j :: 0 <= j < i ==> list[j].date >= c.date
    {
      i := i + 1;
    }
    r, k := list[..i] + [c] + list[i..], i;
  }

  lemma InsertedOnce(list: seq<Commit>, c: Commit, k: nat, r: seq<Commit>)
    requires InsertedAt(list, c, k, r)
    ensures forall x :: x in r <==> x in list || x == c
    ensures Distinct(list) && c !in list ==> Distinct(r)
  {
    forall x | x in list ensures x in r {
      var i :| 0 <= i < |list| && list[i] == x;
      assert x == r[if i < k then i else i + 1];
    }
    forall i | 0 <= i < |r| && i != k ensures r[i] == list[if i < k then i else i - 1] {
      if i > k { assert r[(i - 1) + 1] == list[i - 1]; }
    }
  }

  // ---- The walk's invariant -----------------------------------------------------------------

  /** What a commit hands to its parents: its sides and staleness, stale as soon as both sides met. */
  function Outgoing(flags: set<Flag>): set<Flag> {
    if flags * PAINT == SIDES then PAINT else flags * PAINT
  }

  /** The parent's flags cover what the child's flags send. */
  predicate HandedOn(child: set<Flag>, parent: set<Flag>) {
    && (Parent1 in child ==> Parent1 in parent)
    && (Parent2 in child ==> Parent2 in parent)
    && (Stale in child || (Parent1 in child && Parent2 in child) ==> Stale in parent)
  }

  lemma OutgoingIsHandedOn(child: set<Flag>, parent: set<Flag>)
    ensures Outgoing(child) <= parent <==> HandedOn(child, parent)
    ensures forall f :: f in Outgoing(child) <==>
      f in PAINT && (f in child || (f == Stale && Parent1 in child && Parent2 in child))
  {
    if Parent1 in child && Parent2 in child && Stale !in child {
      assert child * PAINT == SIDES;
    }
    assert forall f :: f in SIDES <==> f == Parent1 || f == Parent2;
    assert forall f :: f in child * PAINT <==> f in child && f in PAINT;
  }

  /**
   * Where each flag may appear: `A1` holds the ancestors of `one`, `A2` those of `twos`, `B` the
   * proper ancestors of common ancestors.
   */
  datatype Bounds = Bounds(A1: set<Commit>, A2: set<Commit>, B: set<Commit>) {
    ghost predicate Closed(G: set<Commit>) {
      forall c, p :: c in G && p in c.parents ==> Pass(c, p)
    }

    ghost predicate Pass(c: Commit, p: Commit) {
      && (c in A1 ==> p in A1) && (c in A2 ==> p in A2)
      && (c in B || (c in A1 && c in A2) ==> p in B)
    }

    ghost predicate Allow(c: Commit, flags: set<Flag>) {
      && (Parent1 in flags ==> c in A1)
      && (Parent2 in flags ==> c in A2)
      && (Stale in flags ==> c in B && Parent1 in flags && Parent2 in flags)
      && (Result in flags ==> Parent1 in flags && Parent2 in flags)
    }
  }

  predicate Painted(flags: set<Flag>) {
    Parent1 in flags || Parent2 in flags || Stale in flags || Result in flags
  }

  /** A processed commit: its parents carry its outgoing flags, and if both sides met there it is a result. */
  ghost predicate Settled(c: Commit)
    reads c, c.parents
  {
    && (forall p :: p in c.parents ==> HandedOn(c.flags, p.flags))
    && Judged(c.flags)
  }

  /** A commit where both sides met is a result unless it is stale. */
  predicate Judged(flags: set<Flag>) {
    Parent1 in flags && Parent2 in flags ==> Stale in flags || Result in flags
  }

  /** The closure invariant: every painted commit, except those queued or in hand, is settled. */
  ghost predicate SettledExcept(G: set<Commit>, pending: set<Commit>)
    requires History(G)
    reads G
  {
    forall c :: c in G && c !in pending && Painted(c.flags) ==> Settled(c)
  }

  /** Every painted commit is a tip or got its paint from a painted child. */
  ghost predicate Traced(G: set<Commit>, tips: set<Commit>)
    reads G
  {
    forall c :: c in G && Painted(c.flags) ==> c in tips || HasPaintedChild(G, c)
  }

  ghost predicate HasPaintedChild(G: set<Commit>, c: Commit)
    reads G
  {
    exists d :: d in G && Painted(d.flags) && c in d.parents
  }

  ghost predicate Walk(G: set<Commit>, b: Bounds, tips: set<Commit>, queue: set<Commit>, inHand: set<Commit>)
    requires History(G)
    reads G
  {
    && (forall c :: c in G ==> b.Allow(c, c.flags))
    && (forall q :: q in queue ==> q in G && Painted(q.flags))
    && SettledExcept(G, queue + inHand)
    && Traced(G, tips)
  }

  /** The flag bits still unset: what bounds the number of times a parent can be queued. */
  ghost function Missing(G: set<Commit>): set<(Commit, Flag)>
    reads G
  {
    set c, f | c in G && f in ALL_FLAGS && f !in c.flags :: (c, f)
  }

  lemma NotOwnParent(G: set<Commit>, c: Commit)
    requires History(G) && c in G
    ensures c !in c.parents
  {
    ReachSelf(G, c);
  }

  /** The results so far: newest first, no repeats, exactly the commits flagged as results. */
  ghost predicate Results(G: set<Commit>, list: seq<Commit>)
    reads G
  {
    && ByDate(list) && Distinct(list)
    && (forall c :: c in list ==> c in G)
    && (forall c :: c in G ==> (c in list <==> Result in c.flags))
  }

  // ---- The walk -----------------------------------------------------------------------------

  /** Paint one parent `p` of the commit in hand and queue it. */
  method PaintParent(ghost G: set<Commit>, ghost b: Bounds, ghost tips: set<Commit>, queue: seq<Commit>,
      ghost commit: Commit, p: Commit, flags: set<Flag>)
    returns (queue': seq<Commit>)
    requires History(G) && b.Closed(G) && commit in G && p in commit.parents
    requires Walk(G, b, tips, Elements(queue), {commit})
    requires flags == Outgoing(commit.flags) && Painted(commit.flags) && !(flags <= p.flags)
    modifies p`flags
    ensures OnlyPushed({p})
    ensures HandedOn(commit.flags, p.flags)
    ensures Walk(G, b, tips, Elements(queue'), {commit})
    ensures Missing(G) < old(Missing(G))
  {
    NotOwnParent(G, commit);
    OutgoingIsHandedOn(commit.flags, p.flags);
    ghost var f :| f in flags && f !in p.flags;
    p.flags := p.flags + flags;
    assert Painted(commit.flags) && HasPaintedChild(G, p);
    assert (p, f) in old(Missing(G)) && (p, f) !in Missing(G);
    queue' := queue + [p];
    assert Elements(queue') == Elements(queue) + {p} by { assert p in queue'; }
  }

  lemma WalkReleases(G: set<Commit>, b: Bounds, tips: set<Commit>, queue: set<Commit>, commit: Commit)
    requires History(G) && commit in G && Walk(G, b, tips, queue, {commit}) && Settled(commit)
    ensures Walk(G, b, tips, queue, {})
  {}

  /** Visit the parents of the commit in hand; stops early at a parent that cannot be parsed. */
  method PaintParents(ghost G: set<Commit>, ghost b: Bounds, ghost tips: set<Commit>, queue: seq<Commit>,
      commit: Commit, flags: set<Flag>, ghost list: seq<Commit>)
    returns (parsed: bool, queue': seq<Commit>)
    requires History(G) && b.Closed(G) && commit in G
    requires Walk(G, b, tips, Elements(queue), {commit})
    requires flags == Outgoing(commit.flags) && Painted(commit.flags) && Judged(commit.flags)
    requires Results(G, list)
    modifies G`flags
    ensures OnlyPushed(G) && Results(G, list)
    ensures Walk(G, b, tips, Elements(queue'), if parsed then {} else {commit})
    ensures !parsed ==> exists c :: c in G && !c.parsable
    ensures Missing(G) < old(Missing(G)) || (Missing(G) == old(Missing(G)) && queue' == queue)
  {
    queue' := queue;
    var i := 0;
    NotOwnParent(G, commit);
    assert Result !in PAINT;
    while i < |commit.parents|
      invariant 0 <= i <= |commit.parents|
      invariant OnlyPushed(G) && Results(G, list)
      invariant Walk(G, b, tips, Elements(queue'), {commit})
      invariant commit.flags == old(commit.flags)
      invariant forall j :: 0 <= j < i ==> HandedOn(commit.flags, commit.parents[j].flags)
      invariant Missing(G) < old(Missing(G)) || (Missing(G) == old(Missing(G)) && queue' == queue)
    {
      var p := commit.parents[i];
      if flags <= p.flags {
        OutgoingIsHandedOn(commit.flags, p.flags);
      } else {
        if !p.parsable {
          return false, queue';
        }
        queue' := PaintParent(G, b, tips, queue', commit, p, flags);
      }
      i := i + 1;
    }
    WalkReleases(G, b, tips, Elements(queue'), commit);
    parsed := true;
  }

  /** Record the commit in hand as a result. */
  method MarkResult(ghost G: set<Commit>, ghost b: Bounds, ghost tips: set<Commit>, ghost queue: set<Commit>,
      commit: Commit, list: seq<Commit>)
    returns (list': seq<Commit>)
    requires History(G) && commit in G && Walk(G, b, tips, queue, {commit}) && Results(G, list)
    requires commit.flags * PAINT == SIDES && Result !in commit.flags
    modifies commit`flags
    ensures commit.flags == old(commit.flags) + {Result}
    ensures Walk(G, b, tips, queue, {commit}) && Results(G, list')
    ensures Missing(G) < old(Missing(G))
  {
    assert SIDES <= commit.flags by { assert forall f :: f in SIDES ==> f in commit.flags * PAINT; }
    commit.flags := commit.flags + {Result};
    assert (commit, Result) in old(Missing(G)) && (commit, Result) !in Missing(G);
    ghost var k;
    list', k := InsertByDate(commit, list);
    InsertedOnce(list, commit, k, list');
  }

  /** queue_has_nonstale. */
  method QueueHasNonstale(queue: seq<Commit>) returns (b: bool)
    ensures b <==> exists q :: q in queue && Stale !in q.flags
  {
    var i := 0;
    while i < |queue|
      invariant 0 <= i <= |queue|
      invariant forall j :: 0 <= j < i ==> Stale in queue[j].flags
    {
      if Stale !in queue[i].flags {
        return true;
      }
      i := i + 1;
    }
    return false;
  }

  /** Where the paint of a walk from `one` and `twos` may go. */
  ghost function PaintBounds(G: set<Commit>, one: Commit, twos: set<Commit>): Bounds {
    Bounds(ReachSet(G, {one}), ReachSet(G, twos), set c | c in G && BelowCommon(G, one, twos, c))
  }

  /** `c` is a proper ancestor of a common ancestor. */
  ghost predicate BelowCommon(G: set<Commit>, one: Commit, twos: set<Commit>, c: Commit) {
    exists d :: d in G && Common(G, one, twos, d) && Reach(G, d, c) && d != c
  }

  lemma BelowCommonClosed(G: set<Commit>, one: Commit, twos: set<Commit>, c: Commit, p: Commit)
    requires History(G) && c in G && p in c.parents
    requires Common(G, one, twos, c) || BelowCommon(G, one, twos, c)
    ensures BelowCommon(G, one, twos, p)
  {
    ReachSelf(G, c);
    var d :| d in G && Common(G, one, twos, d) && Reach(G, d, c);
    ReachStep(G, d, c, p);
  }

  lemma PaintBoundsPass(G: set<Commit>, one: Commit, twos: set<Commit>, c: Commit, p: Commit)
    requires History(G) && c in G && p in c.parents
    ensures PaintBounds(G, one, twos).Pass(c, p)
  {
    var b := PaintBounds(G, one, twos);
    if c in b.A1 {
      assert Reach(G, one, c);
      ReachStep(G, one, c, p);
    }
    if c in b.A2 {
      var t :| t in twos && Reach(G, t, c);
      ReachStep(G, t, c, p);
    }
    if c in b.B || (c in b.A1 && c in b.A2) {
      BelowCommonClosed(G, one, twos, c, p);
    }
  }

  lemma PaintBoundsClosed(G: set<Commit>, one: Commit, twos: set<Commit>)
    requires History(G)
    ensures PaintBounds(G, one, twos).Closed(G)
  {
    forall c, p | c in G && p in c.parents ensures PaintBounds(G, one, twos).Pass(c, p) {
      PaintBoundsPass(G, one, twos, c, p);
    }
  }

  /** Pop any element. */
  method PopAny(queue: seq<Commit>) returns (c: Commit, rest: seq<Commit>)
    requires queue != []
    ensures c in queue && |rest| == |queue| - 1
    ensures multiset(queue) == multiset(rest) + multiset{c}
    ensures Elements(queue) == Elements(rest) + {c}
  {
    var k :| 0 <= k < |queue|;
    c, rest := queue[k], queue[..k] + queue[k + 1..];
    assert queue == queue[..k] + [c] + queue[k + 1..];
    ElementsConcat(queue[..k], [c] + queue[k + 1..]);
    ElementsConcat([c], queue[k + 1..]);
    ElementsConcat(queue[..k], queue[k + 1..]);
    assert queue[..k] + [c] + queue[k + 1..] == queue[..k] + ([c] + queue[k + 1..]);
  }

  /** Take a commit off the queue; record it as a result if both sides just met there. */
  method TakeCommit(ghost G: set<Commit>, ghost b: Bounds, ghost tips: set<Commit>, queue: seq<Commit>,
      list: seq<Commit>)
    returns (commit: Commit, rest: seq<Commit>, flags: set<Flag>, list': seq<Commit>)
    requires History(G) && queue != []
    requires Walk(G, b, tips, Elements(queue), {}) && Results(G, list)
    modifies G`flags
    ensures commit in G && |rest| < |queue|
    ensures Walk(G, b, tips, Elements(rest), {commit}) && Results(G, list')
    ensures flags == Outgoing(commit.flags) && Painted(commit.flags) && Judged(commit.flags)
    ensures OnlyGrown(G) && (Missing(G) < old(Missing(G)) || Missing(G) == old(Missing(G)))
  {
    commit, rest := PopAny(queue);
    list' := list;
    assert Walk(G, b, tips, Elements(rest), {commit});
    flags := commit.flags * PAINT;
    OutgoingIsHandedOn(commit.flags, {});
    if flags == SIDES {
      if Result !in commit.flags {
        list' := MarkResult(G, b, tips, Elements(rest), commit, list);
      }
      flags := flags + {Stale};
    }
  }

  /** Set one flag on a commit at the start of the walk. */
  method PaintTip(ghost G: set<Commit>, ghost b: Bounds, ghost tips: set<Commit>, queue: seq<Commit>,
      c: Commit, side: Flag)
    returns (queue': seq<Commit>)
    requires History(G) && c in G && c in tips && Walk(G, b, tips, Elements(queue), {})
    requires (side == Parent1 && c in b.A1) || (side == Parent2 && c in b.A2)
    requires Results(G, [])
    modifies c`flags
    ensures c.flags == old(c.flags) + {side}
    ensures Results(G, [])
    ensures queue' == queue + [c] && Walk(G, b, tips, Elements(queue'), {})
  {
    c.flags := c.flags + {side};
    queue' := queue + [c];
    assert Elements(queue') == Elements(queue) + {c} by { assert c in queue'; }
  }

  lemma StillLess<T>(a: set<T>, b: set<T>, c: set<T>)
    requires b <= a && c <= b
    ensures c < a || (c == b && b == a)
  {}

  /** One round: take a commit off the queue and visit its parents. */
  method PaintRound(ghost G: set<Commit>, ghost b: Bounds, ghost tips: set<Commit>, todo: seq<Commit>,
      list: seq<Commit>)
    returns (parsed: bool, todo': seq<Commit>, list': seq<Commit>)
    requires History(G) && b.Closed(G) && todo != []
    requires Walk(G, b, tips, Elements(todo), {}) && Results(G, list)
    modifies G`flags
    ensures OnlyGrown(G) && (forall c :: c in G ==> b.Allow(c, c.flags)) && Traced(G, tips)
    ensures parsed ==> Walk(G, b, tips, Elements(todo'), {}) && Results(G, list')
    ensures !parsed ==> exists c :: c in G && !c.parsable
    ensures Missing(G) < old(Missing(G)) || (Missing(G) == old(Missing(G)) && |todo'| < |todo|)
  {
    ghost var before := Missing(G);
    var commit, rest, flags;
    commit, rest, flags, list' := TakeCommit(G, b, tips, todo, list);
    ghost var between := Missing(G);
    parsed, todo' := PaintParents(G, b, tips, rest, commit, flags, list');
    StillLess(before, between, Missing(G));
  }

  /** The main loop: rounds until only stale commits are queued, or a commit cannot be parsed. */
  method PaintLoop(ghost G: set<Commit>, ghost b: Bounds, ghost tips: set<Commit>, start: seq<Commit>)
    returns (parsed: bool, list: seq<Commit>, ghost queue: seq<Commit>)
    requires History(G) && b.Closed(G)
    requires Walk(G, b, tips, Elements(start), {}) && Results(G, [])
    modifies G`flags
    ensures OnlyGrown(G) && (forall c :: c in G ==> b.Allow(c, c.flags)) && Traced(G, tips)
    ensures parsed ==> Walk(G, b, tips, Elements(queue), {}) && Results(G, list)
    ensures parsed ==> forall q :: q in queue ==> Stale in q.flags
    ensures !parsed ==> list == [] && exists c :: c in G && !c.parsable
  {
    list, parsed := [], true;
    var todo := start;
    var more := QueueHasNonstale(todo);
    while more
      invariant Walk(G, b, tips, Elements(todo), {}) && Results(G, list) && OnlyGrown(G)
      invariant more <==> exists q :: q in todo && Stale !in q.flags
      decreases Missing(G), |todo|
    {
      parsed, todo, list := PaintRound(G, b, tips, todo, list);
      if !parsed {
        return false, [], todo;
      }
      more := QueueHasNonstale(todo);
    }
    queue := todo;
  }

  // ---- What the finished walk knows ---------------------------------------------------------

  /** The walk is over: the closure invariant holds and only stale commits are still queued. */
  ghost predicate Finished(G: set<Commit>, b: Bounds, tips: set<Commit>, queue: set<Commit>)
    requires History(G)
    reads G
  {
    Walk(G, b, tips, queue, {}) && forall q :: q in queue ==> Stale in q.flags
  }

  /** A side reaches `x` although the walk stopped early, if no commit on the way there is stale. */
  lemma SideArrives(G: set<Commit>, b: Bounds, tips: set<Commit>, queue: set<Commit>, side: Flag,
      t: Commit, x: Commit)
    requires History(G) && Finished(G, b, tips, queue)
    requires side in SIDES && t in G && side in t.flags && Reach(G, t, x)
    requires forall y :: y in G && y != x && Reach(G, y, x) ==> Stale !in y.flags
    ensures side in x.flags
  {
    var S := set y | y in G && (Reach(G, y, x) ==> side in y.flags);
    forall y, p | y in S && p in y.parents && p in G ensures p in S {
      if Reach(G, p, x) {
        ReachVia(G, y, p, x);
        assert y != x && y !in queue;
        assert Painted(y.flags) && Settled(y);
      }
    }
    ReachClosed(G, S, t, x);
    ReachEnds(G, t, x);
    ReachSelf(G, x);
  }

  /** Every best common ancestor ends as a result that is not stale. */
  lemma BestIsFound(G: set<Commit>, one: Commit, twos: set<Commit>, tips: set<Commit>, queue: set<Commit>, x: Commit)
    requires History(G) && Finished(G, PaintBounds(G, one, twos), tips, queue)
    requires one in G && Parent1 in one.flags && forall t :: t in twos ==> t in G && Parent2 in t.flags
    requires Best(G, one, twos, x)
    ensures Result in x.flags && Stale !in x.flags
  {
    var b := PaintBounds(G, one, twos);
    forall y | y in G && y != x && Reach(G, y, x) ensures Stale !in y.flags {
      assert b.Allow(y, y.flags);
      assert Stale in y.flags ==> Common(G, one, twos, y);
    }
    var t :| t in twos && Reach(G, t, x);
    SideArrives(G, b, tips, queue, Parent1, one, x);
    SideArrives(G, b, tips, queue, Parent2, t, x);
    assert b.Allow(x, x.flags);
    assert Settled(x);
  }

  /** `one` ends with the second side exactly if some member of `twos` is `one` or descends from it. */
  lemma TwoArrivesAtOne(G: set<Commit>, one: Commit, twos: set<Commit>, tips: set<Commit>, queue: set<Commit>)
    requires History(G) && Finished(G, PaintBounds(G, one, twos), tips, queue)
    requires one in G && forall t :: t in twos ==> t in G && Parent2 in t.flags
    requires one in ReachSet(G, twos)
    ensures Parent2 in one.flags
  {
    var b := PaintBounds(G, one, twos);
    forall y | y in G && y != one && Reach(G, y, one) ensures Stale !in y.flags {
      assert b.Allow(y, y.flags);
      if Stale in y.flags {
        ReachAntisym(G, one, y);
      }
    }
    var t :| t in twos && Reach(G, t, one);
    SideArrives(G, b, tips, queue, Parent2, t, one);
  }

  /**
   * What paint_down_to_common promises for every order of pops. Flags mean what they say; all marks
   * can be traced from the tips through marks; the list holds common ancestors, newest first; and
   * unless a commit could not be parsed, no best common ancestor is missed or stale, and the second
   * side has reached `one` exactly if it can.
   */
  ghost predicate Outcome(G: set<Commit>, one: Commit, twos: seq<Commit>, list: seq<Commit>, parsed: bool)
    requires History(G)
    reads G
  {
    var two := Elements(twos);
    && one in G && Parent1 in one.flags
    && (forall c :: c in G ==> PaintBounds(G, one, two).Allow(c, c.flags))
    && Marked(G, ALL_FLAGS) == ReachSet(Marked(G, ALL_FLAGS), {one} + two)
    && ByDate(list) && Distinct(list)
    && (parsed && twos != [] ==>
          && (forall c :: c in list ==> c in G && Common(G, one, two, c))
          && (forall c :: c in G && Best(G, one, two, c) ==> c in list && Stale !in c.flags)
          && (one in ReachSet(G, two) ==> Parent2 in one.flags))
    && (twos == [] ==> list == [one])
    && (!parsed ==> list == [] && exists c :: c in G && !c.parsable)
  }

  lemma TracedIsReached(G: set<Commit>, tips: set<Commit>)
    requires History(G) && Traced(G, tips)
    ensures Marked(G, ALL_FLAGS) == ReachSet(Marked(G, ALL_FLAGS), tips)
  {
    var M := Marked(G, ALL_FLAGS);
    forall m | m in G ensures m in M <==> Painted(m.flags) {
      if Painted(m.flags) {
        var f :| f in m.flags && f in ALL_FLAGS;
        assert f in ALL_FLAGS * m.flags;
      }
    }
    forall m | m in M ensures m in tips || exists d :: d in M && m in d.parents {
      if m !in tips {
        var d :| d in G && Painted(d.flags) && m in d.parents;
        assert d in M;
      }
    }
    forall c | c in M ensures c in ReachSet(M, tips) {
      SupportedMarksReached(G, M, tips, c);
    }
  }

  /** Set one side on `one`, the other on all of `twos`, and queue them. */
  method PaintTips(ghost G: set<Commit>, ghost b: Bounds, ghost tips: set<Commit>, one: Commit, twos: seq<Commit>)
    returns (queue: seq<Commit>)
    requires History(G) && Unpainted(G) && one in G && Elements(twos) <= G
    requires one in tips && one in b.A1 && forall t :: t in twos ==> t in tips && t in b.A2
    modifies G`flags
    ensures OnlyPushed(G) && Walk(G, b, tips, Elements(queue), {}) && Results(G, [])
    ensures Parent1 in one.flags && forall t :: t in twos ==> Parent2 in t.flags
  {
    assert Elements([]) == {};
    assert Result in ALL_FLAGS && Parent1 in ALL_FLAGS && Parent2 in ALL_FLAGS && Stale in ALL_FLAGS;
    assert forall c :: c in G ==> !Painted(c.flags);
    queue := PaintTip(G, b, tips, [], one, Parent1);
    var i := 0;
    while i < |twos|
      invariant 0 <= i <= |twos|
      invariant OnlyPushed(G) && Walk(G, b, tips, Elements(queue), {}) && Results(G, [])
      invariant Parent1 in one.flags && forall t :: t in twos[..i] ==> Parent2 in t.flags
    {
      assert twos[..i + 1] == twos[..i] + [twos[i]];
      queue := PaintTip(G, b, tips, queue, twos[i], Parent2);
      i := i + 1;
    }
  }

  /** paint_down_to_common. `parsed` is false where the source returns NULL for a commit it cannot parse. */
  method PaintDownToCommon(ghost G: set<Commit>, one: Commit, twos: seq<Commit>)
    returns (list: seq<Commit>, parsed: bool)
    requires History(G) && Unpainted(G) && one in G && Elements(twos) <= G
    modifies G`flags
    ensures OnlyGrown(G) && Outcome(G, one, twos, list, parsed)
  {
    ghost var b := PaintBounds(G, one, Elements(twos));
    ghost var tips := {one} + Elements(twos);
    PaintBoundsClosed(G, one, Elements(twos));
    ReachSetClosed(G, {one});
    ReachSetClosed(G, Elements(twos));
    if twos == [] {
      list, parsed := PaintOne(G, b, one);
      return;
    }
    var start := PaintTips(G, b, tips, one, twos);
    ghost var queue;
    parsed, list, queue := PaintLoop(G, b, tips, start);
    TracedIsReached(G, tips);
    if parsed {
      FinishedOutcome(G, one, twos, tips, list, Elements(queue));
    }
  }

  lemma FinishedOutcome(G: set<Commit>, one: Commit, twos: seq<Commit>, tips: set<Commit>, list: seq<Commit>,
      queue: set<Commit>)
    requires History(G) && Results(G, list) && twos != []
    requires Finished(G, PaintBounds(G, one, Elements(twos)), tips, queue)
    requires tips == {one} + Elements(twos)
    requires Marked(G, ALL_FLAGS) == ReachSet(Marked(G, ALL_FLAGS), tips)
    requires one in G && Parent1 in one.flags && forall t :: t in twos ==> t in G && Parent2 in t.flags
    ensures Outcome(G, one, twos, list, true)
  {
    var two := Elements(twos);
    forall c | c in G && Best(G, one, two, c) ensures Result in c.flags && Stale !in c.flags {
      BestIsFound(G, one, two, tips, queue, c);
    }
    if one in ReachSet(G, two) {
      TwoArrivesAtOne(G, one, two, tips, queue);
    }
    forall c | c in list ensures Common(G, one, two, c) {
      assert PaintBounds(G, one, two).Allow(c, c.flags);
    }
  }

  /** The early return when there is nothing to compare with: only `one` is marked. */
  method PaintOne(ghost G: set<Commit>, ghost b: Bounds, one: Commit) returns (list: seq<Commit>, parsed: bool)
    requires History(G) && Unpainted(G) && one in G && b == PaintBounds(G, one, {}) && one in b.A1
    modifies one`flags
    ensures OnlyGrown(G) && Outcome(G, one, [], list, parsed) && parsed
  {
    one.flags := one.flags + {Parent1};
    list, parsed := [one], true;
    assert Traced(G, {one});
    TracedIsReached(G, {one});
    assert {one} + Elements([]) == {one};
    assert Elements([]) == {};
  }
}
