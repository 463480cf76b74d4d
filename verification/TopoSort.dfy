/** sort_in_topological_order: emitting commits when all their listed children are out. */
module TopoSort {
  import opened Basics
  import opened CommitGraph
  import opened PriorityQueue

  datatype RevSortOrder = InGraphOrder | ByCommitDate | ByAuthorDate

  function SortKey(order: RevSortOrder): Commit -> int {
    if order.ByAuthorDate? then (c: Commit) => c.authorDate else (c: Commit) => c.date
  }

  /** The slab of counters: zero for everything never set. */
  function At(slab: map<Commit, nat>, c: Commit): nat {
    if c in slab then slab[c] else 0
  }

  // ---- Counting links -----------------------------------------------------------------------

  /** How often `c` occurs in `s`. */
  ghost function Times(s: seq<Commit>, c: Commit): nat {
    if s == [] then 0 else Times(s[..|s| - 1], c) + if s[|s| - 1] == c then 1 else 0
  }

  lemma {:induction false} TimesIn(s: seq<Commit>, c: Commit)
    ensures Times(s, c) > 0 <==> c in s
  {
    if s != [] {
      var n := |s| - 1;
      TimesIn(s[..n], c);
      assert s == s[..n] + [s[n]];
    }
  }

  lemma TimesNext(s: seq<Commit>, k: nat, c: Commit)
    requires k < |s|
    ensures Times(s[..k + 1], c) == Times(s[..k], c) + if s[k] == c then 1 else 0
  {
    assert s[..k + 1][..k] == s[..k];
  }

  lemma {:induction false} TimesPrefix(s: seq<Commit>, k: nat, c: Commit)
    requires k <= |s|
    ensures Times(s[..k], c) <= Times(s, c)
    decreases |s| - k
  {
    if k < |s| {
      TimesNext(s, k, c);
      TimesPrefix(s, k + 1, c);
    } else {
      assert s[..k] == s;
    }
  }

  /** How many parent links lead from the commits of `s` to `c`. */
  ghost function Links(s: seq<Commit>, c: Commit): nat {
    if s == [] then 0 else Links(s[..|s| - 1], c) + Times(s[|s| - 1].parents, c)
  }

  lemma {:induction false} LinksConcat(a: seq<Commit>, b: seq<Commit>, c: Commit)
    ensures Links(a + b, c) == Links(a, c) + Links(b, c)
  {
    if b == [] {
      assert a + b == a;
    } else {
      var n := |b| - 1;
      LinksConcat(a, b[..n], c);
      assert (a + b)[..|a + b| - 1] == a + b[..n];
    }
  }

  /** Taking one commit out takes out exactly its links. */
  lemma LinksWithout(s: seq<Commit>, k: nat, c: Commit)
    requires k < |s|
    ensures Links(s, c) == Links(Without(s, k), c) + Times(s[k].parents, c)
  {
    assert s == s[..k] + ([s[k]] + s[k + 1..]);
    LinksConcat(s[..k], [s[k]] + s[k + 1..], c);
    LinksConcat([s[k]], s[k + 1..], c);
    LinksConcat(s[..k], s[k + 1..], c);
    assert Links([s[k]], c) == Times(s[k].parents, c);
  }

  /** A commit has no links from `s` exactly if it is nobody's parent there. */
  lemma {:induction false} NoLinks(s: seq<Commit>, c: Commit)
    ensures Links(s, c) == 0 <==> Tip(Elements(s), c)
  {
    if s != [] {
      var n := |s| - 1;
      NoLinks(s[..n], c);
      TimesIn(s[n].parents, c);
      assert s == s[..n] + [s[n]];
    }
  }

  /** `c` is not the parent of any commit of `s`. */
  ghost predicate Tip(s: set<Commit>, c: Commit) {
    forall d :: d in s ==> c !in d.parents
  }

  /** The last link of a walk between different commits. */
  lemma {:induction false} ReachInLast(V: set<Commit>, n: nat, a: Commit, b: Commit) returns (y: Commit)
    requires ReachIn(V, n, a, b) && a != b
    ensures y in V && b in y.parents && Reach(V, a, y)
  {
    var p :| p in a.parents && ReachIn(V, n - 1, p, b);
    if p == b {
      ReachSelf(V, a);
      y := a;
    } else {
      y := ReachInLast(V, n - 1, p, b);
      ReachVia(V, a, p, y);
    }
  }

  lemma ReachLast(V: set<Commit>, a: Commit, b: Commit) returns (y: Commit)
    requires Reach(V, a, b) && a != b
    ensures y in V && b in y.parents && Reach(V, a, y)
  {
    var n: nat :| ReachIn(V, n, a, b);
    y := ReachInLast(V, n, a, b);
  }

  /** As long as commits remain, one of them has no remaining child. */
  lemma SomeTip(L: set<Commit>, rest: set<Commit>, c: Commit) returns (x: Commit)
    requires Acyclic(L) && rest <= L && c in rest
    ensures x in rest && Tip(rest, x)
    decreases Descendants(L, c)
  {
    if d :| d in rest && c in d.parents {
      ReachSelf(L, c);
      ReachVia(L, d, c, c);
      DescendantsShrink(L, d, c);
      x := SomeTip(L, rest, d);
    } else {
      x := c;
    }
  }

  // ---- What the output promises -------------------------------------------------------------

  /** Nothing emitted later has an earlier commit among its listed descendants. */
  ghost predicate Topological(L: set<Commit>, s: seq<Commit>) {
    forall i, j :: 0 <= i < j < |s| ==> !Reach(L, s[j], s[i])
  }

  /** Each emitted commit has the largest key among those whose listed children were all out. */
  ghost predicate Greedy(key: Commit -> int, out: seq<Commit>, rest: set<Commit>) {
    forall i, x :: 0 <= i < |out| && x in Pending(out, i, rest) && Tip(Pending(out, i, rest), x) ==>
      key(out[i]) >= key(x)
  }

  /** `x` has none of its children among the commits from the i-th on. */
  ghost predicate NoChildFrom(out: seq<Commit>, i: nat, x: Commit) {
    forall m :: i <= m < |out| ==> x !in out[m].parents
  }

  /** No commit still to come whose children are all out has a later commit date than the one that comes next. */
  ghost predicate NewestFirst(out: seq<Commit>) {
    forall i, j :: 0 <= i <= j < |out| && NoChildFrom(out, i, out[j]) ==> out[j].date <= out[i].date
  }

  /** The same of the author dates. */
  ghost predicate NewestAuthoredFirst(out: seq<Commit>) {
    forall i, j :: 0 <= i <= j < |out| && NoChildFrom(out, i, out[j]) ==> out[j].authorDate <= out[i].authorDate
  }

  lemma GreedyByDate(order: RevSortOrder, out: seq<Commit>)
    requires order != InGraphOrder && Greedy(SortKey(order), out, {})
    ensures order == ByCommitDate ==> NewestFirst(out)
    ensures order == ByAuthorDate ==> NewestAuthoredFirst(out)
  {
    forall i, j | 0 <= i <= j < |out| && NoChildFrom(out, i, out[j])
      ensures SortKey(order)(out[j]) <= SortKey(order)(out[i])
    {
      assert out[i..][j - i] == out[j];
      assert out[j] in Pending(out, i, {});
      forall d | d in Pending(out, i, {}) ensures out[j] !in d.parents {
        var m :| 0 <= m < |out[i..]| && out[i..][m] == d;
        assert out[i + m] == d;
      }
      assert Tip(Pending(out, i, {}), out[j]);
    }
  }

  /** How many commits were out when the last child of `c` was, that one included; 0 if none is out. */
  ghost function LastChild(out: seq<Commit>, c: Commit): (t: nat)
    ensures t <= |out| && (t > 0 ==> c in out[t - 1].parents)
  {
    if out == [] then 0
    else if c in out[|out| - 1].parents then |out|
    else LastChild(out[..|out| - 1], c)
  }

  /** Where `c` occurs last. */
  ghost function LastAt(s: seq<Commit>, c: Commit): nat {
    if s == [] then 0
    else if s[|s| - 1] == c then |s| - 1
    else LastAt(s[..|s| - 1], c)
  }

  /** `y` became ready after `x`: its last child came later, or is the same and names it behind `x`. */
  ghost predicate ReadyLater(out: seq<Commit>, x: Commit, y: Commit) {
    var t, u := LastChild(out, x), LastChild(out, y);
    t < u || (t == u && (t == 0 || LastAt(out[t - 1].parents, x) < LastAt(out[t - 1].parents, y)))
  }

  /** Of those whose listed children were all out, the commit that became ready last was emitted. */
  ghost predicate LastReadyFirst(out: seq<Commit>, rest: set<Commit>) {
    forall i, x :: 0 <= i < |out| && x in Pending(out, i, rest) && Tip(Pending(out, i, rest), x) && x != out[i] ==>
      ReadyLater(out[..i], x, out[i])
  }

  /** What had not been emitted when `out[i]` was. */
  ghost function Pending(out: seq<Commit>, i: nat, rest: set<Commit>): set<Commit>
    requires i <= |out|
  {
    Elements(out[i..]) + rest
  }

  /** The commits of `s` that are no listed commit's parent, in order. */
  ghost function Tips(L: set<Commit>, s: seq<Commit>): seq<Commit> {
    if s == [] then []
    else Tips(L, s[..|s| - 1]) + if Tip(L, s[|s| - 1]) then [s[|s| - 1]] else []
  }

  // ---- The counters -------------------------------------------------------------------------

  /** Each remaining commit's counter is one more than its links from remaining commits; others are zero. */
  ghost predicate Counts(L: set<Commit>, rest: seq<Commit>, indegree: map<Commit, nat>) {
    && indegree.Keys == L && Elements(rest) <= L
    && (forall c :: c in rest ==> indegree[c] == 1 + Links(rest, c))
    && (forall c :: c in L && c !in rest ==> indegree[c] == 0)
  }

  /** The remaining commits whose counter says that no remaining commit points to them. */
  ghost function Ready(rest: seq<Commit>, indegree: map<Commit, nat>): set<Commit>
    requires Elements(rest) <= indegree.Keys
  {
    set c | c in Elements(rest) && indegree[c] == 1
  }

  lemma ReadyAreTips(L: set<Commit>, rest: seq<Commit>, indegree: map<Commit, nat>)
    requires Counts(L, rest, indegree)
    ensures forall c :: c in rest ==> (c in Ready(rest, indegree) <==> Tip(Elements(rest), c))
  {
    forall c | c in rest ensures c in Ready(rest, indegree) <==> Tip(Elements(rest), c) {
      NoLinks(rest, c);
    }
  }

  /** The first two loops: set every listed commit to one, then count the links among them. */
  method CountLinks(list: seq<Commit>) returns (indegree: map<Commit, nat>)
    ensures Counts(Elements(list), list, indegree)
  {
    indegree := map[];
    var k := 0;
    while k < |list|
      invariant 0 <= k <= |list| && indegree.Keys == Elements(list[..k])
      invariant forall c :: c in indegree ==> indegree[c] == 1
    {
      ElementsNext(list, k);
      indegree := indegree[list[k] := 1];
      k := k + 1;
    }
    assert list[..k] == list;
    k := 0;
    while k < |list|
      invariant 0 <= k <= |list| && indegree.Keys == Elements(list)
      invariant forall c :: c in list ==> indegree[c] == 1 + Links(list[..k], c)
    {
      var i := 0;
      assert list[..k + 1][..k] == list[..k];
      while i < |list[k].parents|
        invariant 0 <= i <= |list[k].parents| && indegree.Keys == Elements(list)
        invariant forall c :: c in list ==> indegree[c] == 1 + Links(list[..k], c) + Times(list[k].parents[..i], c)
      {
        var p := list[k].parents[i];
        forall c
          ensures Times(list[k].parents[..i + 1], c) == Times(list[k].parents[..i], c) + if p == c then 1 else 0
        {
          TimesNext(list[k].parents, i, c);
        }
        if At(indegree, p) != 0 {
          indegree := indegree[p := indegree[p] + 1];
        }
        i := i + 1;
      }
      assert list[k].parents[..i] == list[k].parents;
      k := k + 1;
    }
    assert list[..k] == list;
  }

  /** The queue holds exactly the commits of `S`, each once. */
  ghost predicate Holds(queue: PrioQueue<Commit>, S: set<Commit>)
    reads queue
  {
    queue.Valid() && multiset(Data(queue.q)) == multiset(S)
  }

  /** The counters while `c` is being emitted and its first `i` parent links have been taken back. */
  ghost predicate During(L: set<Commit>, c: Commit, rest: seq<Commit>, indegree: map<Commit, nat>, i: nat)
    requires i <= |c.parents|
  {
    && indegree.Keys == L && Elements(rest) <= L
    && c in L && c !in rest && c !in c.parents && indegree[c] == 1
    && (forall x :: x in rest ==>
          indegree[x] == 1 + Links(rest, x) + Times(c.parents, x) - Times(c.parents[..i], x))
    && (forall x :: x in L && x !in rest && x != c ==> indegree[x] == 0)
  }

  lemma TakeBackOutside(L: set<Commit>, c: Commit, rest: seq<Commit>, indegree: map<Commit, nat>, i: nat)
    requires i < |c.parents| && During(L, c, rest, indegree, i) && At(indegree, c.parents[i]) == 0
    ensures During(L, c, rest, indegree, i + 1)
  {
    forall x | x in rest
      ensures Times(c.parents[..i + 1], x) == Times(c.parents[..i], x) + if c.parents[i] == x then 1 else 0
      ensures Times(c.parents[..i + 1], x) <= Times(c.parents, x)
    {
      TimesNext(c.parents, i, x);
      TimesPrefix(c.parents, i + 1, x);
    }
  }

  /** Taking back one more link leaves at least one on a commit that remains; at exactly one it becomes ready. */
  lemma TakeBack(L: set<Commit>, c: Commit, rest: seq<Commit>, indegree: map<Commit, nat>, i: nat,
      p: Commit, next: map<Commit, nat>)
    requires i < |c.parents| && During(L, c, rest, indegree, i)
    requires p == c.parents[i] && p in indegree && indegree[p] != 0 && next == indegree[p := indegree[p] - 1]
    ensures During(L, c, rest, next, i + 1)
    ensures p !in Ready(rest, indegree)
    ensures next[p] == 1 ==> Ready(rest, next) == Ready(rest, indegree) + {p}
    ensures next[p] != 1 ==> Ready(rest, next) == Ready(rest, indegree)
  {
    assert p in c.parents;
    forall x | x in rest
      ensures Times(c.parents[..i + 1], x) == Times(c.parents[..i], x) + if p == x then 1 else 0
      ensures Times(c.parents[..i + 1], x) <= Times(c.parents, x)
    {
      TimesNext(c.parents, i, x);
      TimesPrefix(c.parents, i + 1, x);
    }
  }

  /** prio_queue_put of a commit that is not queued. */
  method Enqueue(queue: PrioQueue<Commit>, p: Commit, ghost S: set<Commit>)
    requires Holds(queue, S) && p !in S
    modifies queue
    ensures Holds(queue, S + {p})
    ensures queue.lifo ==> Data(queue.q) == Data(old(queue.q)) + [p]
  {
    queue.Put(p);
    assert multiset(S + {p}) == multiset(S) + multiset{p};
  }

  /** The loop over the parents of an emitted commit. */
  method ReleaseParents(ghost L: set<Commit>, c: Commit, ghost rest: seq<Commit>, slab: map<Commit, nat>,
      queue: PrioQueue<Commit>)
    returns (indegree: map<Commit, nat>, ghost pushed: seq<Commit>)
    requires During(L, c, rest, slab, 0) && Holds(queue, Ready(rest, slab))
    modifies queue
    ensures During(L, c, rest, indegree, |c.parents|) && Holds(queue, Ready(rest, indegree))
    ensures Released(c.parents, pushed, |c.parents|)
    ensures queue.lifo ==> Data(queue.q) == Data(old(queue.q)) + pushed
  {
    indegree, pushed := slab, [];
    NothingReleased(c.parents);
    assert Elements(rest) <= indegree.Keys;
    hide During, Data, Released, Holds;
    var i := 0;
    while i < |c.parents|
      invariant 0 <= i <= |c.parents| && Elements(rest) <= indegree.Keys
      invariant During(L, c, rest, indegree, i) && Holds(queue, Ready(rest, indegree))
      invariant Released(c.parents, pushed, i)
      invariant queue.lifo ==> Data(queue.q) == Data(old(queue.q)) + pushed
    {
      ghost var was := pushed;
      indegree, pushed := ReleaseOne(L, c, rest, indegree, queue, i, pushed);
      DuringKeys(L, c, rest, indegree, i + 1);
      Assoc(Data(old(queue.q)), was, pushed[|was|..]);
      assert pushed == was + pushed[|was|..];
      i := i + 1;
    }
  }

  lemma DuringKeys(L: set<Commit>, c: Commit, rest: seq<Commit>, indegree: map<Commit, nat>, i: nat)
    requires i <= |c.parents| && During(L, c, rest, indegree, i)
    ensures Elements(rest) <= indegree.Keys
  {}

  lemma NothingReleased(parents: seq<Commit>)
    ensures Released(parents, [], 0)
  {}

  lemma ReleasedNext(parents: seq<Commit>, pushed: seq<Commit>, i: nat)
    requires i < |parents| && Released(parents, pushed, i)
    ensures Released(parents, pushed, i + 1)
    ensures LastAt(parents, parents[i]) == i ==> Released(parents, pushed + [parents[i]], i + 1)
  {}

  /** One parent: take the link back, and queue the parent if that was the last one. */
  method ReleaseOne(ghost L: set<Commit>, c: Commit, ghost rest: seq<Commit>, slab: map<Commit, nat>,
      queue: PrioQueue<Commit>, i: nat, ghost pushed0: seq<Commit>)
    returns (indegree: map<Commit, nat>, ghost pushed: seq<Commit>)
    requires i < |c.parents| && During(L, c, rest, slab, i) && Holds(queue, Ready(rest, slab))
    requires Released(c.parents, pushed0, i)
    modifies queue
    ensures During(L, c, rest, indegree, i + 1) && Holds(queue, Ready(rest, indegree))
    ensures Released(c.parents, pushed, i + 1)
    ensures pushed0 <= pushed && (queue.lifo ==> Data(queue.q) == Data(old(queue.q)) + pushed[|pushed0|..])
  {
    hide Times, Links, Data, LastAt, Released, Holds;
    indegree, pushed := slab, pushed0;
    ReleasedNext(c.parents, pushed, i);
    var p := c.parents[i];
    if At(indegree, p) == 0 {
      TakeBackOutside(L, c, rest, indegree, i);
    } else {
      ghost var was := Ready(rest, indegree);
      TakeBack(L, c, rest, indegree, i, p, indegree[p := indegree[p] - 1]);
      indegree := indegree[p := indegree[p] - 1];
      if indegree[p] == 1 {
        Enqueue(queue, p, was);
        LastLink(L, c, rest, indegree, i);
        pushed := pushed + [p];
      }
    }
  }

  /** All links of `c` taken back and its own counter cleared: the counters fit the commits that remain. */
  lemma DuringDone(L: set<Commit>, c: Commit, rest: seq<Commit>, indegree: map<Commit, nat>)
    requires During(L, c, rest, indegree, |c.parents|)
    ensures Counts(L, rest, indegree[c := 0])
    ensures Ready(rest, indegree[c := 0]) == Ready(rest, indegree)
  {
    assert c.parents[..|c.parents|] == c.parents;
  }

  lemma DuringStarts(L: set<Commit>, rest: seq<Commit>, k: nat, indegree: map<Commit, nat>)
    requires Acyclic(L) && Distinct(rest) && k < |rest| && Counts(L, rest, indegree) && indegree[rest[k]] == 1
    ensures During(L, rest[k], Without(rest, k), indegree, 0)
    ensures Distinct(Without(rest, k))
    ensures Ready(Without(rest, k), indegree) == Ready(rest, indegree) - {rest[k]}
    ensures Elements(Without(rest, k)) == Elements(rest) - {rest[k]}
  {
    var c, left := rest[k], Without(rest, k);
    assert c in Elements(rest);
    ReachSelf(L, c);
    forall x | x in Elements(rest) ensures x in left <==> x != c {
      var i :| 0 <= i < |rest| && rest[i] == x;
      if i < k { assert left[i] == x; } else if i > k { assert left[i - 1] == x; }
    }
    forall x | x in left ensures indegree[x] == 1 + Links(left, x) + Times(c.parents, x) - Times(c.parents[..0], x) {
      LinksWithout(rest, k, x);
    }
  }

  // ---- One emission -------------------------------------------------------------------------

  /** What is out so far is in topological order, also with respect to what remains. */
  ghost predicate InOrder(L: set<Commit>, out: seq<Commit>, rest: set<Commit>) {
    && L == Elements(out) + rest
    && Topological(L, out)
    && forall d, e :: d in rest && e in out ==> !Reach(L, d, e)
  }

  lemma EmitInOrder(L: set<Commit>, out: seq<Commit>, rest: set<Commit>, c: Commit)
    requires InOrder(L, out, rest) && c in rest && Tip(rest, c)
    ensures InOrder(L, out + [c], rest - {c})
  {
    assert Elements(out + [c]) == Elements(out) + {c} by { assert c in out + [c]; }
    forall d | d in rest - {c} ensures !Reach(L, d, c) {
      if Reach(L, d, c) {
        var y := ReachLast(L, d, c);
      }
    }
  }

  lemma EmitGreedy(key: Commit -> int, out: seq<Commit>, rest: set<Commit>, c: Commit)
    requires Greedy(key, out, rest) && c in rest
    requires forall x :: x in rest && Tip(rest, x) ==> key(c) >= key(x)
    ensures Greedy(key, out + [c], rest - {c})
  {
    var out' := out + [c];
    forall i | 0 <= i < |out'| ensures Pending(out', i, rest - {c}) == Pending(out, i, rest) {
      assert out'[i..] == out[i..] + [c];
      ElementsConcat(out[i..], [c]);
      assert Elements([c]) == {c};
    }
    assert Pending(out, |out|, rest) == rest;
  }

  lemma PendingMore(out: seq<Commit>, rest: set<Commit>, c: Commit, i: nat)
    requires c in rest && i <= |out|
    ensures Pending(out + [c], i, rest - {c}) == Pending(out, i, rest)
  {
    assert (out + [c])[i..] == out[i..] + [c];
    ElementsConcat(out[i..], [c]);
    assert Elements([c]) == {c};
  }

  lemma EmitLastReady(out: seq<Commit>, rest: set<Commit>, c: Commit)
    requires LastReadyFirst(out, rest) && c in rest
    requires forall x :: x in rest && Tip(rest, x) && x != c ==> ReadyLater(out, x, c)
    ensures LastReadyFirst(out + [c], rest - {c})
  {
    hide ReadyLater, Tip, Pending;
    var out' := out + [c];
    forall i, x | 0 <= i < |out'| && x in Pending(out', i, rest - {c}) && Tip(Pending(out', i, rest - {c}), x) &&
      x != out'[i]
      ensures ReadyLater(out'[..i], x, out'[i])
    {
      PendingMore(out, rest, c, i);
      if i < |out| {
        assert out'[..i] == out[..i];
      } else {
        assert out'[..i] == out;
        NothingMore(out, rest);
      }
    }
  }

  lemma NothingMore(out: seq<Commit>, rest: set<Commit>)
    ensures Pending(out, |out|, rest) == rest
  {}

  /** Everything the loop keeps, apart from the queue. */
  ghost predicate Sorting(list: seq<Commit>, out: seq<Commit>, rest: seq<Commit>, indegree: map<Commit, nat>,
      order: RevSortOrder)
  {
    var L := Elements(list);
    && Distinct(rest) && multiset(list) == multiset(out) + multiset(rest)
    && Counts(L, rest, indegree)
    && InOrder(L, out, Elements(rest))
    && (order != InGraphOrder ==> Greedy(SortKey(order), out, Elements(rest)))
  }

  lemma Emitted(list: seq<Commit>, out: seq<Commit>, rest: seq<Commit>, k: nat, slab: map<Commit, nat>,
      indegree: map<Commit, nat>, order: RevSortOrder)
    requires Acyclic(Elements(list)) && k < |rest| && Sorting(list, out, rest, slab, order)
    requires rest[k] in Ready(rest, slab)
    requires order != InGraphOrder ==> forall x :: x in Ready(rest, slab) ==>
      SortKey(order)(rest[k]) >= SortKey(order)(x)
    requires Counts(Elements(list), Without(rest, k), indegree)
    ensures Sorting(list, out + [rest[k]], Without(rest, k), indegree, order)
  {
    var L := Elements(list);
    ReadyAreTips(L, rest, slab);
    DuringStarts(L, rest, k, slab);
    WithoutOne(rest, k);
    EmitInOrder(L, out, Elements(rest), rest[k]);
    if order != InGraphOrder {
      EmitGreedy(SortKey(order), out, Elements(rest), rest[k]);
    }
  }

  // ---- The stack ----------------------------------------------------------------------------

  /** What lies further up on the stack became ready later. */
  ghost predicate Stacked(out: seq<Commit>, stack: seq<Commit>) {
    forall i, j :: 0 <= i < j < |stack| ==> ReadyLater(out, stack[i], stack[j])
  }

  /** Released by the first `n` links of one commit, in the order of their last links. */
  ghost predicate Released(parents: seq<Commit>, pushed: seq<Commit>, n: nat) {
    && (forall x :: x in pushed ==> x in parents && LastAt(parents, x) < n)
    && forall i, j :: 0 <= i < j < |pushed| ==> LastAt(parents, pushed[i]) < LastAt(parents, pushed[j])
  }

  lemma {:induction false} LastTime(s: seq<Commit>, i: nat, p: Commit)
    requires i < |s| && s[i] == p && Times(s[..i + 1], p) == Times(s, p)
    ensures LastAt(s, p) == i
    decreases |s|
  {
    var n := |s| - 1;
    if i < n {
      TimesPrefix(s[..n], i + 1, p);
      assert s[..n][..i + 1] == s[..i + 1];
      assert Times(s, p) == Times(s[..n], p) + if s[n] == p then 1 else 0;
      LastTime(s[..n], i, p);
    }
  }

  /** A link taken back that makes its target ready is the last one to it. */
  lemma LastLink(L: set<Commit>, c: Commit, rest: seq<Commit>, indegree: map<Commit, nat>, i: nat)
    requires i < |c.parents| && During(L, c, rest, indegree, i + 1)
    requires c.parents[i] in rest && indegree[c.parents[i]] == 1
    ensures LastAt(c.parents, c.parents[i]) == i
  {
    TimesPrefix(c.parents, i + 1, c.parents[i]);
    LastTime(c.parents, i, c.parents[i]);
  }

  lemma StillReady(out: seq<Commit>, c: Commit, x: Commit)
    requires x !in c.parents
    ensures LastChild(out + [c], x) == LastChild(out, x)
  {
    assert (out + [c])[..|out|] == out;
  }

  lemma StackNext(out: seq<Commit>, below: seq<Commit>, c: Commit, pushed: seq<Commit>)
    requires Stacked(out, below + [c]) && Released(c.parents, pushed, |c.parents|) && forall x :: x in below ==>
      x !in c.parents
    ensures Stacked(out + [c], below + pushed)
  {
    var stack, out' := below + pushed, out + [c];
    forall i, j | 0 <= i < j < |stack| ensures ReadyLater(out', stack[i], stack[j]) {
      if j < |below| {
        assert stack[i] in below && stack[j] in below;
        assert ReadyLater(out, (below + [c])[i], (below + [c])[j]);
        StillReady(out, c, stack[i]);
        StillReady(out, c, stack[j]);
      } else {
        assert stack[j] in pushed;
        if i < |below| {
          assert stack[i] in below;
          StillReady(out, c, stack[i]);
        } else {
          assert stack[i] in pushed;
        }
      }
    }
  }

  /** The stack of graph order: the tips in the order given, what became ready last on top. */
  ghost predicate Stacking(list: seq<Commit>, out: seq<Commit>, rest: set<Commit>, stack: seq<Commit>) {
    TipsInOrder(Elements(list), list, out, stack) && Stacked(out, stack) && LastReadyFirst(out, rest)
  }

  lemma StackingNext(list: seq<Commit>, out: seq<Commit>, rest: set<Commit>, below: seq<Commit>, c: Commit,
      pushed: seq<Commit>)
    requires Stacking(list, out, rest, below + [c]) && c in rest && rest <= Elements(list)
    requires forall x :: x in rest && Tip(rest, x) ==> x in below + [c]
    requires forall x :: x in below ==> x in rest && Tip(rest, x)
    requires Released(c.parents, pushed, |c.parents|)
    ensures Stacking(list, out + [c], rest - {c}, below + pushed)
  {
    EmitTipsInOrder(Elements(list), list, out, below, c, pushed);
    StackNext(out, below, c, pushed);
    forall x | x in rest && Tip(rest, x) && x != c ensures ReadyLater(out, x, c) {
      var i :| 0 <= i < |below + [c]| && (below + [c])[i] == x;
      assert ReadyLater(out, (below + [c])[i], (below + [c])[|below|]);
    }
    EmitLastReady(out, rest, c);
  }

  lemma StackingStarts(list: seq<Commit>, rest: set<Commit>, stack: seq<Commit>)
    requires TipsInOrder(Elements(list), list, [], stack)
    ensures Stacking(list, [], rest, stack)
  {
    assert forall x :: LastChild([], x) == 0;
  }

  // ---- Tips in the order given --------------------------------------------------------------

  /** The tips on a stack, from the top down. */
  ghost function TipsDown(L: set<Commit>, stack: seq<Commit>): seq<Commit> {
    if stack == [] then []
    else (if Tip(L, stack[|stack| - 1]) then [stack[|stack| - 1]] else []) + TipsDown(L, stack[..|stack| - 1])
  }

  lemma {:induction false} NoTipsPushed(L: set<Commit>, stack: seq<Commit>, pushed: seq<Commit>)
    requires forall x :: x in pushed ==> !Tip(L, x)
    ensures TipsDown(L, stack + pushed) == TipsDown(L, stack)
  {
    if pushed == [] {
      assert stack + pushed == stack;
    } else {
      var n := |pushed| - 1;
      NoTipsPushed(L, stack, pushed[..n]);
      assert (stack + pushed)[..|stack + pushed| - 1] == stack + pushed[..n];
    }
  }

  /** The tips that are out, then the tips on the stack from the top down, are the tips as listed. */
  ghost predicate TipsInOrder(L: set<Commit>, list: seq<Commit>, out: seq<Commit>, stack: seq<Commit>) {
    Tips(L, list) == Tips(L, out) + TipsDown(L, stack)
  }

  lemma EmitTipsInOrder(L: set<Commit>, list: seq<Commit>, out: seq<Commit>, stack: seq<Commit>, c: Commit,
      pushed: seq<Commit>)
    requires TipsInOrder(L, list, out, stack + [c]) && c in L && forall x :: x in pushed ==> x in c.parents
    ensures TipsInOrder(L, list, out + [c], stack + pushed)
  {
    NoTipsPushed(L, stack, pushed);
    TopOfStack(L, stack, c);
    TipEmitted(L, out, c);
    hide TipsDown, Tip, Tips;
    Assoc(Tips(L, out), if Tip(L, c) then [c] else [], TipsDown(L, stack));
  }

  lemma TipEmitted(L: set<Commit>, out: seq<Commit>, c: Commit)
    ensures Tips(L, out + [c]) == Tips(L, out) + if Tip(L, c) then [c] else []
  {
    assert (out + [c])[..|out|] == out;
  }

  lemma TopOfStack(L: set<Commit>, stack: seq<Commit>, c: Commit)
    ensures TipsDown(L, stack + [c]) == (if Tip(L, c) then [c] else []) + TipsDown(L, stack)
  {
    assert (stack + [c])[..|stack|] == stack;
  }

  lemma {:induction false} ReversedTips(L: set<Commit>, tips: seq<Commit>, stack: seq<Commit>)
    requires |tips| == |stack| && forall k :: 0 <= k < |tips| ==> stack[k] == tips[|tips| - 1 - k] && Tip(L, tips[k])
    ensures TipsDown(L, stack) == tips
  {
    if tips != [] {
      var n := |stack| - 1;
      assert stack[n] == tips[0];
      ReversedTips(L, tips[1..], stack[..n]);
    }
  }

  lemma {:induction false} TipsAreTips(L: set<Commit>, s: seq<Commit>)
    ensures forall x :: x in Tips(L, s) ==> Tip(L, x)
  {
    if s != [] {
      TipsAreTips(L, s[..|s| - 1]);
    }
  }

  // ---- The sort -----------------------------------------------------------------------------

  /** Queue the commits no listed commit points to; in graph order the first one given comes out first. */
  method QueueTips(list: seq<Commit>, indegree: map<Commit, nat>, order: RevSortOrder)
    returns (queue: PrioQueue<Commit>)
    requires Distinct(list) && Counts(Elements(list), list, indegree)
    ensures fresh(queue) && Holds(queue, Ready(list, indegree))
    ensures queue.lifo == order.InGraphOrder? && queue.key == SortKey(order)
    ensures order.InGraphOrder? ==> TipsInOrder(Elements(list), list, [], Data(queue.q))
  {
    queue := PutTips(list, indegree, order);
    if order.InGraphOrder? {
      ghost var was := queue.q;
      queue.Reverse();
      DataRearranged(was, queue.q);
      TipsAreTips(Elements(list), list);
      ReversedTips(Elements(list), Data(was), Data(queue.q));
    }
  }

  /** Put the tips into the queue, in list order. */
  method PutTips(list: seq<Commit>, indegree: map<Commit, nat>, order: RevSortOrder)
    returns (queue: PrioQueue<Commit>)
    requires Distinct(list) && Counts(Elements(list), list, indegree)
    ensures fresh(queue) && Holds(queue, Ready(list, indegree))
    ensures queue.lifo == order.InGraphOrder? && queue.key == SortKey(order)
    ensures order.InGraphOrder? ==> Data(queue.q) == Tips(Elements(list), list)
  {
    queue := new PrioQueue(SortKey(order), order.InGraphOrder?);
    ghost var L := Elements(list);
    assert Holds(queue, {}) && list[..0] == [] && Tips(L, []) == [];
    assert indegree.Keys == L && Ready([], indegree) == {};
    hide Counts, Tips, Ready, Holds, Links, Tip;
    var k := 0;
    while k < |list|
      invariant 0 <= k <= |list| && fresh(queue) && Elements(list[..k]) <= L
      invariant Holds(queue, Ready(list[..k], indegree))
      invariant queue.lifo ==> Data(queue.q) == Tips(L, list[..k])
    {
      ReadyNext(list, k, indegree);
      TipsNext(L, list, k);
      if indegree[list[k]] == 1 {
        Enqueue(queue, list[k], Ready(list[..k], indegree));
      }
      k := k + 1;
    }
    assert list[..k] == list;
  }

  lemma ReadyNext(list: seq<Commit>, k: nat, indegree: map<Commit, nat>)
    requires Distinct(list) && k < |list| && Counts(Elements(list), list, indegree)
    ensures Elements(list[..k]) <= Elements(list[..k + 1]) <= Elements(list)
    ensures list[k] !in Ready(list[..k], indegree)
    ensures indegree[list[k]] == 1 ==> Ready(list[..k + 1], indegree) == Ready(list[..k], indegree) + {list[k]}
    ensures indegree[list[k]] != 1 ==> Ready(list[..k + 1], indegree) == Ready(list[..k], indegree)
    ensures indegree[list[k]] == 1 <==> Tip(Elements(list), list[k])
    ensures list[..k + 1][..k] == list[..k]
  {
    ElementsNext(list, k);
    NoLinks(list, list[k]);
  }

  lemma TipsNext(L: set<Commit>, s: seq<Commit>, k: nat)
    requires k < |s|
    ensures Tips(L, s[..k + 1]) == Tips(L, s[..k]) + if Tip(L, s[k]) then [s[k]] else []
  {
    assert s[..k + 1][..k] == s[..k];
  }

  /** Take one commit off the queue, release its parents and clear its counter. */
  method EmitNext(list: seq<Commit>, out: seq<Commit>, ghost rest: seq<Commit>, slab: map<Commit, nat>,
      queue: PrioQueue<Commit>, order: RevSortOrder)
    returns (indegree: map<Commit, nat>, out': seq<Commit>, ghost rest': seq<Commit>)
    requires Acyclic(Elements(list)) && Sorting(list, out, rest, slab, order)
    requires Holds(queue, Ready(rest, slab)) && queue.q != []
    requires queue.lifo == order.InGraphOrder? && queue.key == SortKey(order)
    requires queue.lifo ==> Stacking(list, out, Elements(rest), Data(queue.q))
    modifies queue
    ensures Sorting(list, out', rest', indegree, order) && |rest'| < |rest|
    ensures Holds(queue, Ready(rest', indegree))
    ensures queue.lifo ==> Stacking(list, out', Elements(rest'), Data(queue.q))
  {
    ghost var L, S := Elements(list), Ready(rest, slab);
    ghost var all := Data(queue.q);
    var commit := Dequeue(queue, S);
    ghost var k :| 0 <= k < |rest| && rest[k] == commit;
    rest' := Without(rest, k);
    DuringStarts(L, rest, k, slab);
    ghost var pushed;
    ghost var below := Data(queue.q);
    indegree, pushed := ReleaseParents(L, commit, rest', slab, queue);
    DuringDone(L, commit, rest', indegree);
    indegree := indegree[commit := 0];
    out' := out + [commit];
    Emitted(list, out, rest, k, slab, indegree, order);
    if queue.lifo {
      StackHoldsTips(L, rest, slab, below, commit);
      StackingNext(list, out, Elements(rest), below, commit, pushed);
    }
  }

  lemma StackHoldsTips(L: set<Commit>, rest: seq<Commit>, slab: map<Commit, nat>, below: seq<Commit>, c: Commit)
    requires Counts(L, rest, slab) && multiset(below + [c]) == multiset(Ready(rest, slab))
    ensures forall x :: x in rest && Tip(Elements(rest), x) ==> x in below + [c]
    ensures forall x :: x in below ==> x in rest && Tip(Elements(rest), x)
  {
    ReadyAreTips(L, rest, slab);
    hide Ready, Counts, Tip;
    var S := Ready(rest, slab);
    forall x | x in S ensures x in below + [c] {
      assert x in multiset(S);
      assert x in multiset(below + [c]);
    }
    forall x | x in below ensures x in S {
      assert x in below + [c];
      assert x in multiset(below + [c]);
    }
  }

  /** prio_queue_get of a queued commit. */
  method Dequeue(queue: PrioQueue<Commit>, ghost S: set<Commit>) returns (c: Commit)
    requires Holds(queue, S) && queue.q != []
    modifies queue
    ensures c in S && Holds(queue, S - {c})
    ensures !queue.lifo ==> forall x :: x in S ==> queue.key(c) >= queue.key(x)
    ensures queue.lifo ==> Data(old(queue.q)) == Data(queue.q) + [c]
  {
    ghost var all := Data(queue.q);
    c := queue.Get();
    assert c in multiset(all);
    assert multiset(S) == multiset(S - {c}) + multiset{c};
    CancelOne(multiset(Data(queue.q)), multiset(S - {c}), c);
    forall x | x in S ensures x in all {
      assert x in multiset(all);
    }
  }

  /**
   * sort_in_topological_order: a rearrangement of the list in which each commit comes before every
   * listed commit it reaches through listed commits. By date, each commit is the newest whose listed
   * children are all out; in graph order, each commit is the one that became ready last, and the tips
   * come in the order they were given.
   */
  method SortInTopologicalOrder(list: seq<Commit>, order: RevSortOrder) returns (out: seq<Commit>)
    requires Distinct(list) && Acyclic(Elements(list))
    ensures multiset(out) == multiset(list)
    ensures Topological(Elements(list), out)
    ensures order == ByCommitDate ==> NewestFirst(out)
    ensures order == ByAuthorDate ==> NewestAuthoredFirst(out)
    ensures order == InGraphOrder ==> Tips(Elements(list), out) == Tips(Elements(list), list) && LastReadyFirst(out, {})
  {
    var indegree := CountLinks(list);
    var queue := QueueTips(list, indegree, order);
    out := [];
    SortingStarts(list, indegree, order);
    if queue.lifo {
      StackingStarts(list, Elements(list), Data(queue.q));
    }
    ghost var rest := list;
    while queue.q != []
      invariant fresh(queue) && queue.lifo == order.InGraphOrder? && queue.key == SortKey(order)
      invariant Sorting(list, out, rest, indegree, order)
      invariant Holds(queue, Ready(rest, indegree))
      invariant queue.lifo ==> Stacking(list, out, Elements(rest), Data(queue.q))
      decreases |rest|
    {
      indegree, out, rest := EmitNext(list, out, rest, indegree, queue, order);
    }
    SortingEnds(list, out, rest, indegree, order);
    if order != InGraphOrder {
      GreedyByDate(order, out);
    }
  }

  lemma SortingStarts(list: seq<Commit>, indegree: map<Commit, nat>, order: RevSortOrder)
    requires Distinct(list) && Counts(Elements(list), list, indegree)
    ensures Sorting(list, [], list, indegree, order)
  {
    assert Elements([]) == {};
  }

  lemma SortingEnds(list: seq<Commit>, out: seq<Commit>, rest: seq<Commit>, indegree: map<Commit, nat>,
      order: RevSortOrder)
    requires Acyclic(Elements(list)) && Sorting(list, out, rest, indegree, order)
    requires multiset(Ready(rest, indegree)) == multiset{}
    ensures rest == [] && multiset(out) == multiset(list) && Topological(Elements(list), out)
    ensures order != InGraphOrder ==> Greedy(SortKey(order), out, {})
  {
    assert Ready(rest, indegree) == {} by {
      forall x ensures x !in Ready(rest, indegree) {
        assert multiset(Ready(rest, indegree))[x] == 0;
      }
    }
    if rest != [] {
      ReadyAreTips(Elements(list), rest, indegree);
      var x := SomeTip(Elements(list), Elements(rest), rest[0]);
    }
    assert Elements([]) == {};
  }
}
