/** prio-queue.c: a binary heap kept in an array, or a plain stack when there is no comparison. */
module PriorityQueue {
  import opened Basics

  /** A queued thing with the number of its insertion, which breaks ties in favour of the older one. */
  datatype Entry<T> = Entry(ctr: nat, data: T)

  /** compare(a, b) <= 0: larger key first, then earlier insertion. */
  predicate Before<T>(key: T -> int, a: Entry<T>, b: Entry<T>) {
    key(a.data) > key(b.data) || (key(a.data) == key(b.data) && a.ctr <= b.ctr)
  }

  /** Every entry comes after its parent, except that nothing is said about `hole` below or above it. */
  ghost predicate HeapBut<T>(key: T -> int, q: seq<Entry<T>>, up: int, down: int) {
    forall k {:trigger q[k]} :: 0 < k < |q| && k != up && (k - 1) / 2 != down ==> Before(key, q[(k - 1) / 2], q[k])
  }

  ghost predicate Heap<T>(key: T -> int, q: seq<Entry<T>>) {
    HeapBut(key, q, -1, -1)
  }

  /** The children of `ix` come after the parent of `ix`, so lifting or sinking at `ix` is safe. */
  ghost predicate Bridged<T>(key: T -> int, q: seq<Entry<T>>, ix: nat) {
    forall k {:trigger q[k]} :: 0 < k < |q| && 0 < ix < |q| && (k - 1) / 2 == ix ==> Before(key, q[(ix - 1) / 2], q[k])
  }

  function Swap<T>(q: seq<T>, i: nat, j: nat): (r: seq<T>)
    requires i < |q| && j < |q|
    ensures |r| == |q| && multiset(r) == multiset(q)
  {
    SwapKeepsContents(q, i, j);
    q[i := q[j]][j := q[i]]
  }

  lemma SwapKeepsContents<T>(q: seq<T>, i: nat, j: nat)
    requires i < |q| && j < |q|
    ensures multiset(q[i := q[j]][j := q[i]]) == multiset(q)
  {
  }

  /** Lift the entry at `ix` one step. */
  lemma LiftStep<T>(key: T -> int, q: seq<Entry<T>>, ix: nat)
    requires 0 < ix < |q| && HeapBut(key, q, ix, -1) && Bridged(key, q, ix)
    requires !Before(key, q[(ix - 1) / 2], q[ix])
    ensures var p := (ix - 1) / 2; HeapBut(key, Swap(q, p, ix), p, -1) && Bridged(key, Swap(q, p, ix), p)
  {
    var p := (ix - 1) / 2;
    var r := Swap(q, p, ix);
    forall k {:trigger r[k]} | 0 < k < |r| && k != p ensures Before(key, r[(k - 1) / 2], r[k]) {
      assert k != ix ==> Before(key, q[(k - 1) / 2], q[k]);
    }
    forall k {:trigger r[k]} | 0 < k < |r| && 0 < p && (k - 1) / 2 == p ensures Before(key, r[(p - 1) / 2], r[k]) {
      assert Before(key, q[(p - 1) / 2], q[p]);
      assert k != ix ==> Before(key, q[p], q[k]);
    }
  }

  /** Sink the entry at `ix` below its first child. */
  lemma SinkStep<T>(key: T -> int, q: seq<Entry<T>>, ix: nat, child: nat)
    requires ix < |q| && child < |q| && 0 < child && (child - 1) / 2 == ix
    requires HeapBut(key, q, -1, ix) && Bridged(key, q, ix)
    requires forall k {:trigger q[k]} :: 0 < k < |q| && (k - 1) / 2 == ix ==> Before(key, q[child], q[k])
    requires !Before(key, q[ix], q[child])
    ensures HeapBut(key, Swap(q, child, ix), -1, child) && Bridged(key, Swap(q, child, ix), child)
  {
    var r := Swap(q, child, ix);
    assert Before(key, q[child], q[ix]);
    hide Before;
    forall k {:trigger r[k]} | 0 < k < |r| && (k - 1) / 2 != child ensures Before(key, r[(k - 1) / 2], r[k]) {
      var up := (k - 1) / 2;
      if k == ix {
        assert r[k] == q[child] && r[up] == q[up];
      } else if up == ix {
        assert r[up] == q[child] && r[k] == if k == child then q[ix] else q[k];
      } else {
        assert r[k] == q[k] && r[up] == q[up];
      }
    }
    forall k {:trigger r[k]} | 0 < k < |r| && (k - 1) / 2 == child ensures Before(key, r[(child - 1) / 2], r[k]) {
      assert r[k] == q[k] && r[ix] == q[child];
    }
  }

  /** The root of a heap comes before everything. */
  lemma {:induction false} RootIsFirst<T>(key: T -> int, q: seq<Entry<T>>, k: nat)
    requires Heap(key, q) && k < |q|
    ensures Before(key, q[0], q[k])
  {
    if k > 0 {
      RootIsFirst(key, q, (k - 1) / 2);
      assert Before(key, q[(k - 1) / 2], q[k]);
    }
  }

  /** The queued things, in array order. */
  function Data<T>(q: seq<Entry<T>>): (d: seq<T>)
    ensures |d| == |q| && forall i :: 0 <= i < |q| ==> d[i] == q[i].data
  {
    seq(|q|, i requires 0 <= i < |q| => q[i].data)
  }


  lemma WithoutOne<T>(s: seq<T>, k: nat)
    requires k < |s|
    ensures multiset(s) == multiset(Without(s, k)) + multiset{s[k]}
  {
    assert s == s[..k] + ([s[k]] + s[k + 1..]);
  }

  lemma CancelOne<T>(a: multiset<T>, b: multiset<T>, x: T)
    requires a + multiset{x} == b + multiset{x}
    ensures a == b
  {
    forall y ensures a[y] == b[y] {
      assert (a + multiset{x})[y] == (b + multiset{x})[y];
    }
  }

  lemma DataWithout<T>(q: seq<Entry<T>>, k: nat)
    requires k < |q|
    ensures Data(Without(q, k)) == Without(Data(q), k)
  {}

  /** Rearranging entries rearranges the things they carry. */
  lemma {:induction false} DataRearranged<T>(q: seq<Entry<T>>, r: seq<Entry<T>>)
    requires multiset(q) == multiset(r)
    ensures multiset(Data(q)) == multiset(Data(r))
    decreases |q|
  {
    if q == [] {
      assert |multiset(r)| == 0;
    } else {
      assert q[0] in multiset(r);
      var k :| 0 <= k < |r| && r[k] == q[0];
      assert multiset(Without(q, 0)) == multiset(Without(r, k)) by {
        WithoutOne(q, 0);
        WithoutOne(r, k);
        CancelOne(multiset(Without(q, 0)), multiset(Without(r, k)), q[0]);
      }
      DataRearranged(Without(q, 0), Without(r, k));
      DataWithout(q, 0);
      DataWithout(r, k);
      WithoutOne(Data(q), 0);
      WithoutOne(Data(r), k);
    }
  }

  /** Adding or removing an entry adds or removes the thing it carries. */
  lemma DataAdded<T>(q: seq<Entry<T>>, r: seq<Entry<T>>, e: Entry<T>)
    requires multiset(r) == multiset(q) + multiset{e}
    ensures multiset(Data(r)) == multiset(Data(q)) + multiset{e.data}
  {
    assert multiset(q + [e]) == multiset(r);
    DataRearranged(q + [e], r);
    assert Data(q + [e]) == Data(q) + [e.data];
  }

  class PrioQueue<T(==)> {
    const key: T -> int
    const lifo: bool
    var q: seq<Entry<T>>
    var insertionCtr: nat

    ghost predicate Valid()
      reads this
    {
      !lifo ==> Heap(key, q)
    }

    constructor (key: T -> int, lifo: bool)
      ensures Valid() && q == [] && this.key == key && this.lifo == lifo
    {
      this.key, this.lifo := key, lifo;
      q, insertionCtr := [], 0;
    }

    /** prio_queue_put. */
    method Put(thing: T)
      requires Valid()
      modifies this
      ensures Valid() && insertionCtr == old(insertionCtr) + 1
      ensures multiset(q) == multiset(old(q)) + multiset{Entry(old(insertionCtr), thing)}
      ensures multiset(Data(q)) == multiset(Data(old(q))) + multiset{thing}
      ensures lifo ==> q == old(q) + [Entry(old(insertionCtr), thing)] && Data(q) == Data(old(q)) + [thing]
    {
      Append(thing);
      DataAdded(old(q), q, Entry(old(insertionCtr), thing));
    }

    /** Append at the end and, in a heap, bubble up the new one. */
    method Append(thing: T)
      requires Valid()
      modifies this
      ensures Valid() && insertionCtr == old(insertionCtr) + 1
      ensures multiset(q) == multiset(old(q)) + multiset{Entry(old(insertionCtr), thing)}
      ensures lifo ==> q == old(q) + [Entry(old(insertionCtr), thing)]
    {
      q := q + [Entry(insertionCtr, thing)];
      insertionCtr := insertionCtr + 1;
      if !lifo {
        BubbleUp();
      }
    }

    /** Lift the last entry to its place. */
    method BubbleUp()
      requires q != [] && Heap(key, q[..|q| - 1])
      modifies this`q
      ensures Heap(key, q) && multiset(q) == multiset(old(q))
    {
      hide Before;
      LastIsHole(key, q);
      var ix := |q| - 1;
      while ix != 0
        invariant 0 <= ix < |q| && multiset(q) == multiset(old(q))
        invariant HeapBut(key, q, ix, -1) && Bridged(key, q, ix)
      {
        var parent := (ix - 1) / 2;
        if Before(key, q[parent], q[ix]) {
          break;
        }
        LiftStep(key, q, ix);
        q := Swap(q, parent, ix);
        ix := parent;
      }
      LiftDone(key, q, ix);
    }

    /** prio_queue_get on a queue that is not empty. */
    method Get() returns (thing: T)
      requires Valid() && q != []
      modifies this
      ensures Valid() && insertionCtr == old(insertionCtr)
      ensures multiset(Data(old(q))) == multiset(Data(q)) + multiset{thing}
      ensures !lifo ==> forall x :: x in Data(old(q)) ==> key(thing) >= key(x)
      ensures lifo ==> Data(old(q)) == Data(q) + [thing]
    {
      ghost var first;
      thing, first := GetEntry();
      DataAdded(q, old(q), first);
      if !lifo {
        forall x | x in Data(old(q)) ensures key(thing) >= key(x) {
          var i :| 0 <= i < |old(q)| && Data(old(q))[i] == x;
          assert old(q)[i] in old(q);
        }
      }
    }

    /** The entry that comes first in a heap, the last one in a stack. */
    method GetEntry() returns (thing: T, ghost first: Entry<T>)
      requires Valid() && q != []
      modifies this
      ensures Valid() && insertionCtr == old(insertionCtr)
      ensures thing == first.data && multiset(old(q)) == multiset(q) + multiset{first}
      ensures !lifo ==> forall e :: e in old(q) ==> Before(key, first, e)
      ensures lifo ==> old(q) == q + [first]
    {
      if lifo {
        first := q[|q| - 1];
        thing := q[|q| - 1].data;
        assert q == q[..|q| - 1] + [first];
        q := q[..|q| - 1];
      } else {
        first := q[0];
        thing := q[0].data;
        RootIsFirstOfAll(key, q);
        RemoveRoot();
      }
    }

    /** Move the last entry to the root and push it down. */
    method RemoveRoot()
      requires q != [] && Heap(key, q)
      modifies this`q
      ensures Heap(key, q) && multiset(old(q)) == multiset(q) + multiset{old(q)[0]}
    {
      if |q| == 1 {
        assert q == [q[0]];
        q := [];
        return;
      }
      RootReplaced(q);
      HoleAtRoot(key, q);
      hide HeapBut, LastToRoot;
      q := LastToRoot(q);
      SinkRoot();
    }

    /** Push down the entry at the root. */
    method SinkRoot()
      requires q != [] && HeapBut(key, q, -1, 0)
      modifies this`q
      ensures Heap(key, q) && multiset(q) == multiset(old(q))
    {
      var ix, nr := 0, |q|;
      while ix * 2 + 1 < nr
        invariant 0 <= ix < nr == |q| && multiset(q) == multiset(old(q))
        invariant HeapBut(key, q, -1, ix) && Bridged(key, q, ix)
      {
        var child := ix * 2 + 1;
        if child + 1 < nr && Before(key, q[child + 1], q[child]) {
          child := child + 1;
        }
        FirstChild(key, q, ix, child);
        if Before(key, q[ix], q[child]) {
          SinkDone(key, q, ix);
          return;
        }
        SinkStep(key, q, ix, child);
        q := Swap(q, child, ix);
        ix := child;
      }
      SinkDone(key, q, ix);
    }

    /** prio_queue_reverse, for stacks only. */
    method Reverse()
      requires lifo
      modifies this`q
      ensures |q| == |old(q)| && forall k :: 0 <= k < |q| ==> q[k] == old(q)[|q| - 1 - k]
      ensures multiset(q) == multiset(old(q))
    {
      hide HalfReversed, Swap;
      var i, n := 0, |q|;
      ReverseStarts(q);
      while i <= n - 1 - i
        invariant 0 <= i <= (n + 1) / 2 && HalfReversed(old(q), q, i)
        invariant multiset(q) == multiset(old(q))
      {
        var j := n - 1 - i;
        ReverseStep(old(q), q, i);
        q := Swap(q, i, j);
        i := i + 1;
      }
      ReverseDone(old(q), q, i);
    }
  }

  /** The outer `i` entries on each side are already exchanged. */
  ghost predicate HalfReversed<T>(s: seq<T>, r: seq<T>, i: nat) {
    && |r| == |s|
    && (forall k :: 0 <= k < |s| && (k < i || k >= |s| - i) ==> r[k] == s[|s| - 1 - k])
    && (forall k :: i <= k < |s| - i ==> r[k] == s[k])
  }

  lemma ReverseStep<T>(s: seq<T>, r: seq<T>, i: nat)
    requires HalfReversed(s, r, i) && i <= |s| - 1 - i
    ensures HalfReversed(s, Swap(r, i, |s| - 1 - i), i + 1)
  {}

  lemma ReverseStarts<T>(s: seq<T>)
    ensures HalfReversed(s, s, 0)
  {}

  lemma ReverseDone<T>(s: seq<T>, r: seq<T>, i: nat)
    requires HalfReversed(s, r, i) && |s| < 2 * i + 1
    ensures |r| == |s| && forall k :: 0 <= k < |s| ==> r[k] == s[|s| - 1 - k]
  {}

  lemma LastIsHole<T>(key: T -> int, q: seq<Entry<T>>)
    requires q != [] && Heap(key, q[..|q| - 1])
    ensures HeapBut(key, q, |q| - 1, -1) && Bridged(key, q, |q| - 1)
  {
    var r := q[..|q| - 1];
    forall k {:trigger q[k]} | 0 < k < |q| && k != |q| - 1 ensures Before(key, q[(k - 1) / 2], q[k]) {
      assert Before(key, r[(k - 1) / 2], r[k]);
    }
  }

  lemma LiftDone<T>(key: T -> int, q: seq<Entry<T>>, ix: nat)
    requires ix < |q| && HeapBut(key, q, ix, -1) && (ix == 0 || Before(key, q[(ix - 1) / 2], q[ix]))
    ensures Heap(key, q)
  {}

  lemma RootIsFirstOfAll<T>(key: T -> int, q: seq<Entry<T>>)
    requires q != [] && Heap(key, q)
    ensures forall e :: e in q ==> Before(key, q[0], e)
  {
    forall k | 0 <= k < |q| ensures Before(key, q[0], q[k]) {
      RootIsFirst(key, q, k);
    }
  }

  /** The chosen child comes before every child of `ix`. */
  lemma FirstChild<T>(key: T -> int, q: seq<Entry<T>>, ix: nat, child: nat)
    requires ix < |q| && child < |q| && ix * 2 + 1 <= child <= ix * 2 + 2
    requires child == ix * 2 + 1 ==> child + 1 < |q| ==> !Before(key, q[child + 1], q[child])
    requires child == ix * 2 + 2 ==> Before(key, q[child], q[child - 1])
    ensures forall k {:trigger q[k]} :: 0 < k < |q| && (k - 1) / 2 == ix ==> Before(key, q[child], q[k])
  {
    forall k {:trigger q[k]} | 0 < k < |q| && (k - 1) / 2 == ix ensures Before(key, q[child], q[k]) {
      assert k == ix * 2 + 1 || k == ix * 2 + 2;
    }
  }

  lemma SinkDone<T>(key: T -> int, q: seq<Entry<T>>, ix: nat)
    requires ix < |q| && HeapBut(key, q, -1, ix)
    requires forall k {:trigger q[k]} :: 0 < k < |q| && (k - 1) / 2 == ix ==> Before(key, q[ix], q[k])
    ensures Heap(key, q)
  {
    forall k {:trigger q[k]} | 0 < k < |q| ensures Before(key, q[(k - 1) / 2], q[k]) {}
  }

  /** The last entry in place of the first. */
  function LastToRoot<T>(q: seq<T>): seq<T>
    requires |q| > 1
  {
    q[..|q| - 1][0 := q[|q| - 1]]
  }

  lemma RootReplaced<T>(q: seq<Entry<T>>)
    requires |q| > 1
    ensures multiset(q) == multiset(LastToRoot(q)) + multiset{q[0]} && LastToRoot(q) != []
  {
    var n := |q| - 1;
    assert q == [q[0]] + q[1..n] + [q[n]];
    assert q[..n][0 := q[n]] == [q[n]] + q[1..n];
  }

  lemma HoleAtRoot<T>(key: T -> int, q: seq<Entry<T>>)
    requires |q| > 1 && Heap(key, q)
    ensures HeapBut(key, LastToRoot(q), -1, 0)
  {
    var r := LastToRoot(q);
    forall k {:trigger r[k]} | 0 < k < |r| && (k - 1) / 2 != 0 ensures Before(key, r[(k - 1) / 2], r[k]) {
      assert Before(key, q[(k - 1) / 2], q[k]);
    }
  }
}
