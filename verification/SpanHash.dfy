/** diffcore-delta.c: the open-addressing table that counts bytes by span hash. */
module SpanHash {
  const INITIAL_HASH_SIZE: nat := 9
  const HASHBASE: nat := 107927

  datatype Span = Span(hashval: nat, cnt: nat)

  function Pow2(l: nat): (n: nat)
    ensures n > 0
  {
    if l == 0 then 1 else 2 * Pow2(l - 1)
  }

  lemma Product(a: nat, b: nat)
    ensures a * b >= 0
  {
  }

  /** INITIAL_FREE: how many entries a table of that size takes before it grows. */
  function InitialFree(l: nat): nat
    requires l >= 3
  {
    var size: nat, part: nat := Pow2(l), l - 3;
    Product(size, part);
    size * part / l
  }

  // ---- Counts -------------------------------------------------------------------------------

  /** The bytes counted under hash value `h`. */
  function CountOf(d: seq<Span>, h: nat): nat {
    if d == [] then 0 else CountOf(d[..|d| - 1], h) + if d[|d| - 1].hashval == h then d[|d| - 1].cnt else 0
  }

  /** The number of slots in use. */
  function Used(d: seq<Span>): (n: nat)
    ensures n <= |d|
  {
    if d == [] then 0 else Used(d[..|d| - 1]) + if d[|d| - 1].cnt > 0 then 1 else 0
  }

  lemma {:induction false} CountSet(d: seq<Span>, k: nat, x: Span, h: nat)
    requires k < |d|
    ensures CountOf(d[k := x], h) + (if d[k].hashval == h then d[k].cnt else 0) ==
            CountOf(d, h) + if x.hashval == h then x.cnt else 0
  {
    var n := |d| - 1;
    if k < n {
      CountSet(d[..n], k, x, h);
      assert d[k := x][..n] == d[..n][k := x];
    } else {
      assert d[k := x][..n] == d[..n];
    }
  }

  lemma {:induction false} UsedSet(d: seq<Span>, k: nat, x: Span)
    requires k < |d|
    ensures Used(d[k := x]) + (if d[k].cnt > 0 then 1 else 0) == Used(d) + if x.cnt > 0 then 1 else 0
  {
    var n := |d| - 1;
    if k < n {
      UsedSet(d[..n], k, x);
      assert d[k := x][..n] == d[..n][k := x];
    } else {
      assert d[k := x][..n] == d[..n];
    }
  }

  lemma {:induction false} AllUsed(d: seq<Span>)
    requires forall k {:trigger d[k]} :: 0 <= k < |d| ==> d[k].cnt > 0
    ensures Used(d) == |d|
  {
    if d != [] {
      AllUsed(d[..|d| - 1]);
    }
  }

  lemma {:induction false} NotCounted(d: seq<Span>, h: nat)
    requires forall k {:trigger d[k]} :: 0 <= k < |d| && d[k].hashval == h ==> d[k].cnt == 0
    ensures CountOf(d, h) == 0
  {
    if d != [] {
      NotCounted(d[..|d| - 1], h);
    }
  }

  // ---- Probing ------------------------------------------------------------------------------

  /** The slot looked at after `t` steps from `home`, around the end. */
  function Probe(home: nat, t: nat, size: nat): int {
    if home + t < size then home + t else home + t - size
  }

  /** How many steps lead from `home` to slot `k`. */
  function Steps(home: nat, k: nat, size: nat): int {
    if home <= k then k - home else k + size - home
  }

  function Home(h: nat, size: nat): nat
    requires size > 0
  {
    h % size
  }

  /** Slot `k` is reached from the home of its entry over used slots. */
  ghost predicate Reached(d: seq<Span>, k: nat)
    requires k < |d|
  {
    UsedFrom(d, Home(d[k].hashval, |d|), Steps(Home(d[k].hashval, |d|), k, |d|))
  }

  /** The first `n` slots probed from `home` are in use. */
  ghost predicate UsedFrom(d: seq<Span>, home: nat, n: int) {
    forall t: nat {:trigger Probe(home, t, |d|)} :: t < n && 0 <= Probe(home, t, |d|) < |d| ==>
      d[Probe(home, t, |d|)].cnt > 0
  }

  /** Every entry is reached from its home, and no hash value is entered twice. */
  ghost predicate Probing(d: seq<Span>) {
    && |d| > 0
    && (forall k {:trigger d[k]} :: 0 <= k < |d| && d[k].cnt > 0 ==> Reached(d, k))
    && (forall j, k {:trigger d[j], d[k]} :: 0 <= j < k < |d| && d[j].cnt > 0 && d[k].cnt > 0 ==>
         d[j].hashval != d[k].hashval)
  }

  /** Probing passed `t` used slots with other hash values. */
  ghost predicate Passed(d: seq<Span>, h: nat, t: nat)
    requires |d| > 0
  {
    && UsedFrom(d, Home(h, |d|), t)
    && forall u: nat {:trigger Probe(Home(h, |d|), u, |d|)} :: u < t && 0 <= Probe(Home(h, |d|), u, |d|) < |d| ==>
         d[Probe(Home(h, |d|), u, |d|)].hashval != h
  }

  lemma ProbeSteps(home: nat, k: nat, size: nat)
    requires home < size && k < size
    ensures 0 <= Steps(home, k, size) < size && Probe(home, Steps(home, k, size), size) == k
    ensures forall t: nat :: t < size && Probe(home, t, size) == k ==> t == Steps(home, k, size)
  {
  }

  /** If probing passes every slot, all of them are in use. */
  lemma PassedAll(d: seq<Span>, h: nat)
    requires |d| > 0 && Passed(d, h, |d|)
    ensures Used(d) == |d|
  {
    forall k | 0 <= k < |d| ensures d[k].cnt > 0 {
      ProbeSteps(Home(h, |d|), k, |d|);
    }
    AllUsed(d);
  }

  /** An empty slot met on the way shows that the hash value is not in the table. */
  lemma NotEntered(d: seq<Span>, h: nat, t: nat, j: nat)
    requires Probing(d) && t < |d| && Passed(d, h, t)
    requires var k := Probe(Home(h, |d|), t, |d|); 0 <= k < |d| && d[k].cnt == 0
    requires j < |d| && d[j].cnt > 0
    ensures d[j].hashval != h
  {
    var home := Home(h, |d|);
    ProbeSteps(home, j, |d|);
    assert Reached(d, j);
  }

  /** Entering a new hash value at the empty slot where probing ends. */
  lemma EnterKeeps(d: seq<Span>, h: nat, t: nat, k: nat, cnt: nat)
    requires Probing(d) && t < |d| && Passed(d, h, t) && k == Probe(Home(h, |d|), t, |d|) < |d| && d[k].cnt == 0 < cnt
    ensures Probing(d[k := Span(h, cnt)]) && Used(d[k := Span(h, cnt)]) == Used(d) + 1
    ensures forall x :: CountOf(d[k := Span(h, cnt)], x) == CountOf(d, x) + if x == h then cnt else 0
  {
    var e := d[k := Span(h, cnt)];
    UsedSet(d, k, Span(h, cnt));
    forall x ensures CountOf(e, x) == CountOf(d, x) + if x == h then cnt else 0 {
      CountSet(d, k, Span(h, cnt), x);
    }
    ProbeSteps(Home(h, |d|), k, |d|);
    forall j | 0 <= j < |e| && e[j].cnt > 0 ensures Reached(e, j) && (j != k ==> e[j].hashval != h) {
      if j != k {
        NotEntered(d, h, t, j);
        assert Reached(d, j);
        MoreUsed(d, e, Home(d[j].hashval, |d|), Steps(Home(d[j].hashval, |d|), j, |d|));
      } else {
        MoreUsed(d, e, Home(h, |d|), t);
      }
    }
  }

  lemma MoreUsed(d: seq<Span>, e: seq<Span>, home: nat, n: int)
    requires |e| == |d| && UsedFrom(d, home, n) && forall k {:trigger e[k]} :: 0 <= k < |d| && d[k].cnt > 0 ==>
      e[k].cnt > 0
    ensures UsedFrom(e, home, n)
  {
  }

  /** Adding to the count of a hash value that is in the table. */
  lemma AddKeeps(d: seq<Span>, k: nat, cnt: nat)
    requires Probing(d) && k < |d| && d[k].cnt > 0
    ensures Probing(d[k := d[k].(cnt := d[k].cnt + cnt)]) && Used(d[k := d[k].(cnt := d[k].cnt + cnt)]) == Used(d)
    ensures forall x ::
      CountOf(d[k := d[k].(cnt := d[k].cnt + cnt)], x) == CountOf(d, x) + if x == d[k].hashval then cnt else 0
  {
    var s := d[k].(cnt := d[k].cnt + cnt);
    var e := d[k := s];
    UsedSet(d, k, s);
    forall x ensures CountOf(e, x) == CountOf(d, x) + if x == d[k].hashval then cnt else 0 {
      CountSet(d, k, s, x);
    }
    forall j | 0 <= j < |e| && e[j].cnt > 0 ensures Reached(e, j) {
      assert Reached(d, j);
      MoreUsed(d, e, Home(d[j].hashval, |d|), Steps(Home(d[j].hashval, |d|), j, |d|));
    }
  }

  // ---- Room ---------------------------------------------------------------------------------

  ghost function Hashes(d: seq<Span>): set<nat> {
    set s | s in d && s.cnt > 0 :: s.hashval
  }

  /** Distinct hash values below HASHBASE: no more entries than that. */
  lemma {:induction false} UsedIsHashes(d: seq<Span>)
    requires forall j, k {:trigger d[j], d[k]} :: 0 <= j < k < |d| && d[j].cnt > 0 && d[k].cnt > 0 ==>
      d[j].hashval != d[k].hashval
    ensures Used(d) == |Hashes(d)|
  {
    if d != [] {
      var n := |d| - 1;
      UsedIsHashes(d[..n]);
      assert d == d[..n] + [d[n]];
      if d[n].cnt > 0 {
        assert Hashes(d) == Hashes(d[..n]) + {d[n].hashval};
        assert d[n].hashval !in Hashes(d[..n]);
      } else {
        assert Hashes(d) == Hashes(d[..n]);
      }
    }
  }

  lemma {:induction false} FewBelow(s: set<nat>, n: nat)
    requires forall x :: x in s ==> x < n
    ensures |s| <= n
  {
    if n > 0 {
      FewBelow(s - {n - 1}, n - 1);
      if n - 1 in s {
        assert s == s - {n - 1} + {n - 1};
      } else {
        assert s == s - {n - 1};
      }
    }
  }

  /** Growing doubles the table, leaves it with room again, and never takes it beyond 2^17 slots. */
  lemma RoomToGrow(l: nat)
    requires INITIAL_HASH_SIZE <= l <= 17
    ensures InitialFree(l) < Pow2(l) && (l < 17 ==> InitialFree(l) + 1 <= InitialFree(l + 1)) &&
      HASHBASE <= InitialFree(17)
    ensures Pow2(l + 1) == 2 * Pow2(l)
  {
    assert Pow2(9) == 512 && Pow2(10) == 1024 && Pow2(11) == 2048 && Pow2(12) == 4096;
    assert Pow2(13) == 8192 && Pow2(14) == 16384 && Pow2(15) == 32768 && Pow2(16) == 65536 && Pow2(17) == 131072;
    assert InitialFree(9) == 341 && InitialFree(10) == 716 && InitialFree(11) == 1489 && InitialFree(12) == 3072;
    assert InitialFree(13) == 6301 && InitialFree(14) == 12873 && InitialFree(15) == 26214 && InitialFree(16) == 53248;
    assert InitialFree(17) == 107941;
  }

  // ---- The table ----------------------------------------------------------------------------

  class SpanHashTop {
    const allocLog2: nat
    const data: array<Span>
    var free: int

    ghost predicate Fits()
      reads this, data
    {
      && INITIAL_HASH_SIZE <= allocLog2 <= 17 && data.Length == Pow2(allocLog2)
      && Probing(data[..]) && free == InitialFree(allocLog2) - Used(data[..])
      && forall k {:trigger data[k]} :: 0 <= k < data.Length && data[k].cnt > 0 ==> data[k].hashval < HASHBASE
    }

    /** There is room for at least one more entry. */
    ghost predicate Valid()
      reads this, data
    {
      Fits() && free >= 0
    }

    constructor (l: nat)
      requires INITIAL_HASH_SIZE <= l <= 17
      ensures Valid() && allocLog2 == l && fresh(data) && free == InitialFree(l)
      ensures forall h :: CountOf(data[..], h) == 0
    {
      var d := new Span[Pow2(l)](_ => Span(0, 0));
      allocLog2, data, free := l, d, InitialFree(l);
      new;
      NothingUsed(data[..]);
    }

    /** The probing loop shared by insertion and rehashing: an empty slot, or the entry of the hash value. */
    method Find(hashval: nat) returns (bucket: nat, ghost t: nat)
      requires Probing(data[..]) && Used(data[..]) < data.Length
      ensures bucket < data.Length && t < data.Length && bucket == Probe(Home(hashval, data.Length), t, data.Length)
      ensures Passed(data[..], hashval, t) && (data[bucket].cnt == 0 || data[bucket].hashval == hashval)
    {
      var lim := data.Length;
      bucket, t := hashval % lim, 0;
      while data[bucket].cnt != 0 && data[bucket].hashval != hashval
        invariant bucket < lim && t < lim && bucket == Probe(Home(hashval, lim), t, lim) && Passed(data[..], hashval, t)
        decreases lim - t
      {
        ghost var d := data[..];
        PassOne(d, hashval, t, bucket);
        if t + 1 == lim {
          PassedAll(d, hashval);
        }
        bucket := bucket + 1;
        if lim <= bucket {
          bucket := 0;
        }
        t := t + 1;
      }
    }

    /** Fill an empty slot found by probing. */
    method Enter(bucket: nat, ghost t: nat, hashval: nat, cnt: nat)
      requires Fits() && bucket < data.Length && t < data.Length && hashval < HASHBASE && cnt > 0
      requires bucket == Probe(Home(hashval, data.Length), t, data.Length)
      requires Passed(data[..], hashval, t) && data[bucket].cnt == 0
      modifies this, data
      ensures Fits() && free == old(free) - 1
      ensures forall h :: CountOf(data[..], h) == CountOf(old(data[..]), h) + if h == hashval then cnt else 0
    {
      ghost var d := data[..];
      EnterKeeps(d, hashval, t, bucket, cnt);
      data[bucket] := Span(hashval, cnt);
      assert data[..] == d[bucket := Span(hashval, cnt)];
      free := free - 1;
    }

    /** add_spanhash: count `cnt` more bytes under a hash value; the table may have to grow. */
    method AddSpanHash(hashval: nat, cnt: nat) returns (top: SpanHashTop)
      requires Valid() && hashval < HASHBASE && cnt > 0
      modifies this, data
      ensures top.Valid() && (top == this || (fresh(top) && fresh(top.data)))
      ensures forall h :: CountOf(top.data[..], h) == CountOf(old(data[..]), h) + if h == hashval then cnt else 0
    {
      RoomToGrow(allocLog2);
      top := this;
      var bucket, t := Find(hashval);
      if data[bucket].cnt == 0 {
        Enter(bucket, t, hashval, cnt);
        if free < 0 {
          top := Rehash();
        }
      } else {
        ghost var d := data[..];
        AddKeeps(d, bucket, cnt);
        data[bucket] := data[bucket].(cnt := data[bucket].cnt + cnt);
        assert data[..] == d[bucket := d[bucket].(cnt := d[bucket].cnt + cnt)];
      }
    }

    /** spanhash_rehash: the same counts in a table twice the size. */
    method Rehash() returns (top: SpanHashTop)
      requires Fits() && free == -1
      ensures top.Valid() && fresh(top) && fresh(top.data)
      ensures forall h :: CountOf(top.data[..], h) == CountOf(data[..], h)
    {
      hide Probing, InitialFree, Pow2, Used, CountOf;
      ghost var d := data[..];
      MustGrow();
      top := new SpanHashTop(allocLog2 + 1);
      Nothing(top.data[..], d);
      var i := 0;
      while i < data.Length
        invariant 0 <= i <= data.Length && top.Fits() && fresh(top) && fresh(top.data) && top.allocLog2 == allocLog2 + 1
        invariant top.data.Length > Used(d) && top.free == InitialFree(allocLog2 + 1) - Used(d[..i])
        invariant SameCounts(top.data[..], d[..i])
      {
        top.TakeOver(data[i], d, i);
        i := i + 1;
      }
      assert d[..i] == d;
    }

    lemma MustGrow()
      requires Fits() && free == -1
      ensures allocLog2 < 17 && Used(data[..]) <= InitialFree(allocLog2 + 1) && Used(data[..]) < Pow2(allocLog2 + 1)
    {
      RoomToGrow(allocLog2);
      UsedIsHashes(data[..]);
      FewBelow(Hashes(data[..]), HASHBASE);
    }

    /** One round of rehashing: enter the i-th slot of the old table. */
    method TakeOver(o: Span, ghost d: seq<Span>, ghost i: nat)
      requires Fits() && i < |d| && o == d[i] && Probing(d) && Used(d) < data.Length
      requires d[i].cnt > 0 ==> d[i].hashval < HASHBASE
      requires free == InitialFree(allocLog2) - Used(d[..i]) && SameCounts(data[..], d[..i])
      modifies this, data
      ensures Fits() && free == InitialFree(allocLog2) - Used(d[..i + 1]) && SameCounts(data[..], d[..i + 1])
    {
      assert d[..i + 1][..i] == d[..i];
      UsedPrefix(d, i);
      if o.cnt == 0 {
        return;
      }
      var bucket, t := Find(o.hashval);
      NotYetCounted(d, i);
      if data[bucket].cnt != 0 {
        Counted(data[..], bucket);
      }
      Enter(bucket, t, o.hashval, o.cnt);
    }
  }

  ghost predicate SameCounts(d: seq<Span>, e: seq<Span>) {
    forall h :: CountOf(d, h) == CountOf(e, h)
  }

  lemma Nothing(d: seq<Span>, e: seq<Span>)
    requires forall h :: CountOf(d, h) == 0
    ensures SameCounts(d, e[..0]) && Used(e[..0]) == 0
  {
    assert e[..0] == [];
  }

  lemma PassOne(d: seq<Span>, h: nat, t: nat, bucket: nat)
    requires |d| > 0 && Passed(d, h, t) && bucket < |d| && bucket == Probe(Home(h, |d|), t, |d|)
    requires d[bucket].cnt > 0 && d[bucket].hashval != h
    ensures Passed(d, h, t + 1)
  {
  }

  lemma {:induction false} NothingUsed(d: seq<Span>)
    requires |d| > 0 && forall k :: 0 <= k < |d| ==> d[k] == Span(0, 0)
    ensures Probing(d) && Used(d) == 0 && forall h :: CountOf(d, h) == 0
  {
    forall h ensures CountOf(d, h) == 0 {
      NotCounted(d, h);
    }
    NoneUsed(d);
  }

  lemma {:induction false} NoneUsed(d: seq<Span>)
    requires forall k :: 0 <= k < |d| ==> d[k] == Span(0, 0)
    ensures Used(d) == 0
  {
    if d != [] {
      NoneUsed(d[..|d| - 1]);
    }
  }

  lemma {:induction false} UsedPrefix(d: seq<Span>, i: nat)
    requires i <= |d|
    ensures Used(d[..i]) <= Used(d)
    decreases |d|
  {
    if i < |d| {
      assert d[..|d| - 1][..i] == d[..i];
      UsedPrefix(d[..|d| - 1], i);
    } else {
      assert d[..i] == d;
    }
  }

  /** The hash value of the next entry does not occur before it. */
  lemma NotYetCounted(d: seq<Span>, i: nat)
    requires Probing(d) && i < |d| && d[i].cnt > 0
    ensures CountOf(d[..i], d[i].hashval) == 0
  {
    NotCounted(d[..i], d[i].hashval);
  }

  lemma {:induction false} Counted(d: seq<Span>, k: nat)
    requires k < |d| && d[k].cnt > 0
    ensures CountOf(d, d[k].hashval) >= d[k].cnt
  {
    if k < |d| - 1 {
      Counted(d[..|d| - 1], k);
    }
  }
}
