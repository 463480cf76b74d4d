/** create_delta_index: hash the source block by block, thin out crowded buckets, pack them. */
module DeltaIndexing {
  import opened Basics
  import opened DeltaFormat
  import opened DeltaHash
  import opened DeltaEncoder

  const HASH_LIMIT: nat := 64

  // ---- The entries --------------------------------------------------------------------------

  /** The hash of the b-th block: the sixteen bytes behind its first one. */
  ghost function BlockHash(t: Tables, src: seq<byte>, b: nat): (v: bv32)
    requires t.Valid() && RABIN_WINDOW * (b + 1) < |src|
    ensures v < 0x8000_0000
  {
    Hash(t, src[RABIN_WINDOW * b + 1..RABIN_WINDOW * b + 17])
  }

  /** The entries for the blocks from `b` on below `n`; of neighbouring equal hashes only the lowest. */
  ghost function Blocks(t: Tables, src: seq<byte>, b: nat, n: nat): (es: seq<IndexEntry>)
    requires t.Valid() && b <= n && (n > 0 ==> RABIN_WINDOW * n < |src|)
    ensures b < n ==> es != [] && es[0].val == BlockHash(t, src, b)
    decreases n - b
  {
    if b == n then []
    else AddBlock(Blocks(t, src, b + 1, n), IndexEntry(RABIN_WINDOW * b + RABIN_WINDOW, BlockHash(t, src, b)))
  }

  /** A lower entry takes the place of its upper neighbour if they have the same hash. */
  function AddBlock(es: seq<IndexEntry>, e: IndexEntry): (r: seq<IndexEntry>)
    ensures r != [] && r[0] == e
  {
    if es != [] && es[0].val == e.val then [e] + es[1..] else [e] + es
  }

  ghost function BlockEntry(t: Tables, src: seq<byte>, b: nat): (e: IndexEntry)
    requires t.Valid() && RABIN_WINDOW * (b + 1) < |src|
    ensures e.ptr == RABIN_WINDOW * (b + 1) && e.val == BlockHash(t, src, b) && IsBlock(t, src, e)
  {
    IndexEntry(RABIN_WINDOW * (b + 1), BlockHash(t, src, b))
  }

  lemma BlocksFrom(t: Tables, src: seq<byte>, b: nat, n: nat)
    requires t.Valid() && b < n && RABIN_WINDOW * n < |src|
    ensures RABIN_WINDOW * (b + 1) < |src|
    ensures Blocks(t, src, b, n) == AddBlock(Blocks(t, src, b + 1, n), BlockEntry(t, src, b))
  {
    hide BlockHash, AddBlock, Hash, Tables.Valid;
    assert RABIN_WINDOW * (b + 1) <= RABIN_WINDOW * n;
  }

  lemma AddedOrReplaced(es: seq<IndexEntry>, e: IndexEntry)
    ensures AddBlock(es, e) == [e] + es || (es != [] && es[0].val == e.val && AddBlock(es, e) == [e] + es[1..])
  {}

  lemma NoBlocks(t: Tables, src: seq<byte>, n: nat)
    requires t.Valid() && (n > 0 ==> RABIN_WINDOW * n < |src|)
    ensures Blocks(t, src, n, n) == []
  {}

  /** The entries ascend, lie inside the source, and carry the hash of the block that ends there. */
  lemma {:induction false} BlocksAscend(t: Tables, src: seq<byte>, b: nat, n: nat)
    requires t.Valid() && b <= n && (n > 0 ==> RABIN_WINDOW * n < |src|)
    ensures Ascending(Blocks(t, src, b, n))
    ensures forall e :: e in Blocks(t, src, b, n) ==> e.ptr > RABIN_WINDOW * b && IsBlock(t, src, e)
    decreases n - b
  {
    hide Blocks, BlockHash, IsBlock, AddBlock, Tables.Valid, BlockEntry;
    if b < n {
      BlocksAscend(t, src, b + 1, n);
      BlocksFrom(t, src, b, n);
      var rest := Blocks(t, src, b + 1, n);
      AddedOrReplaced(rest, BlockEntry(t, src, b));
      BehindFirst(BlockEntry(t, src, b), rest, Blocks(t, src, b, n));
    } else {
      NoBlocks(t, src, n);
    }
  }

  lemma BehindFirst(first: IndexEntry, rest: seq<IndexEntry>, es: seq<IndexEntry>)
    requires Ascending(rest) && forall e :: e in rest ==> e.ptr >= first.ptr
    requires es == [first] + rest || (rest != [] && es == [first] + rest[1..])
    ensures Ascending(es) && forall e :: e in es ==> e == first || e in rest
  {
    assert forall k :: 1 <= k < |es| ==> es[k] in rest;
  }

  /** `e` is the entry of the block that ends before `e.ptr + 1`. */
  ghost predicate IsBlock(t: Tables, src: seq<byte>, e: IndexEntry)
    requires t.Valid()
  {
    exists b: nat {:trigger BlockHash(t, src, b)} ::
      RABIN_WINDOW * (b + 1) < |src| && e == IndexEntry(RABIN_WINDOW * (b + 1), BlockHash(t, src, b))
  }

  /** Some entry carries the hash and stands no higher than `ptr`. */
  ghost predicate Listed(es: seq<IndexEntry>, val: bv32, ptr: nat) {
    exists e :: e in es && e.val == val && e.ptr <= ptr
  }

  lemma FirstListed(es: seq<IndexEntry>, e: IndexEntry)
    ensures Listed(AddBlock(es, e), e.val, e.ptr)
  {
    assert AddBlock(es, e)[0] in AddBlock(es, e);
  }

  lemma StillListed(es: seq<IndexEntry>, e: IndexEntry, val: bv32, ptr: nat)
    requires Listed(es, val, ptr) && e.ptr <= ptr
    ensures Listed(AddBlock(es, e), val, ptr)
  {
    var x :| x in es && x.val == val && x.ptr <= ptr;
    AddedOrReplaced(es, e);
    var es' := AddBlock(es, e);
    if x !in es' {
      assert es == [es[0]] + es[1..];
      assert x == es[0] && es'[0] == e;
    }
  }

  /** No block is lost: its hash stands at its own place or at that of a lower neighbour with the same hash. */
  lemma {:induction false} EveryBlockIsFound(t: Tables, src: seq<byte>, b: nat, n: nat, c: nat)
    requires t.Valid() && b <= c < n && RABIN_WINDOW * n < |src|
    ensures RABIN_WINDOW * (c + 1) < |src|
    ensures Listed(Blocks(t, src, b, n), BlockHash(t, src, c), RABIN_WINDOW * (c + 1))
    decreases n - b
  {
    hide Blocks, BlockHash, AddBlock, Listed, Tables.Valid;
    BlocksFrom(t, src, b, n);
    if b < c {
      EveryBlockIsFound(t, src, b + 1, n, c);
      StillListed(Blocks(t, src, b + 1, n), BlockEntry(t, src, b), BlockHash(t, src, c), RABIN_WINDOW * (c + 1));
    } else {
      FirstListed(Blocks(t, src, b + 1, n), BlockEntry(t, src, b));
    }
  }

  // ---- Buckets ------------------------------------------------------------------------------

  ghost function InBucket(es: seq<IndexEntry>, mask: bv32, i: BucketNr): seq<IndexEntry> {
    if es == [] then []
    else (if BucketOf(es[0].val, mask) == i then [es[0]] else []) + InBucket(es[1..], mask, i)
  }

  lemma {:induction false} InBucketAscends(es: seq<IndexEntry>, mask: bv32, i: BucketNr)
    requires Ascending(es)
    ensures Ascending(InBucket(es, mask, i))
    ensures forall e :: e in InBucket(es, mask, i) <==> e in es && BucketOf(e.val, mask) == i
  {
    hide BucketOf;
    if es != [] {
      InBucketAscends(es[1..], mask, i);
      var rest := InBucket(es[1..], mask, i);
      assert InBucket(es, mask, i) == (if BucketOf(es[0].val, mask) == i then [es[0]] else []) + rest;
      hide InBucket;
      forall k | 0 <= k < |rest| ensures es[0].ptr <= rest[k].ptr {
        assert rest[k] in es[1..];
        var j :| 1 <= j < |es| && es[j] == rest[k];
      }
    }
  }

  /** What is left of a bucket: all of it, or HASH_LIMIT entries at even distances. */
  function Thinned(es: seq<IndexEntry>): (r: seq<IndexEntry>)
    ensures |r| <= HASH_LIMIT
  {
    if |es| <= HASH_LIMIT then es
    else seq(HASH_LIMIT, k requires 0 <= k < HASH_LIMIT => KeptAt(es, k))
  }

  /** Of more than 64 entries the 64 at places 0, n / 64, 2 n / 64 and so on, rounded up, stay. */
  lemma ThinnedIs(es: seq<IndexEntry>, k: nat)
    requires |es| > 64 && k < 64
    ensures |Thinned(es)| == 64 && (k * |es| + 63) / 64 < |es| && Thinned(es)[k] == es[(k * |es| + 63) / 64]
  {
    PlaceInRange(k, |es|);
  }

  lemma ThinnedCount(es: seq<IndexEntry>)
    ensures |Thinned(es)| == if |es| <= HASH_LIMIT then |es| else HASH_LIMIT
  {}

  /** The k-th entry kept of a crowded bucket. */
  function KeptAt(es: seq<IndexEntry>, k: nat): IndexEntry
    requires |es| > HASH_LIMIT && k < HASH_LIMIT
  {
    PlaceInRange(k, |es|);
    es[Place(k, |es|)]
  }

  /** k * n / HASH_LIMIT, rounded up. */
  function Place(k: nat, n: nat): nat {
    (k * n + HASH_LIMIT - 1) / HASH_LIMIT
  }

  lemma PlaceInRange(k: nat, n: nat)
    requires n > HASH_LIMIT && k < HASH_LIMIT
    ensures Place(k, n) < n && Place(k, n) < Place(k + 1, n)
  {
    assert k * n <= (HASH_LIMIT - 1) * n;
    assert (k + 1) * n == k * n + n;
  }

  lemma {:induction false} PlacesAscend(j: nat, k: nat, n: nat)
    requires n > HASH_LIMIT && j <= k <= HASH_LIMIT
    ensures Place(j, n) <= Place(k, n)
    decreases k - j
  {
    if j < k {
      PlacesAscend(j, k - 1, n);
      PlaceInRange(k - 1, n);
    }
  }

  lemma ThinnedAscends(es: seq<IndexEntry>)
    requires Ascending(es)
    ensures Ascending(Thinned(es)) && forall e :: e in Thinned(es) ==> e in es
  {
    if |es| > HASH_LIMIT {
      forall j, k | 0 <= j < k < HASH_LIMIT ensures KeptAt(es, j).ptr <= KeptAt(es, k).ptr {
        PlacesAscend(j, k, |es|);
        PlaceInRange(k, |es|);
        PlaceInRange(j, |es|);
      }
      forall k | 0 <= k < HASH_LIMIT ensures KeptAt(es, k) in es {
        PlaceInRange(k, |es|);
      }
    }
  }

  // ---- Linked buckets -----------------------------------------------------------------------

  /** An entry before packing; `next` is the place of the next one in the bucket, or negative. */
  datatype Slot = Slot(entry: IndexEntry, next: int)

  /** Links lead to older entries of the same bucket. */
  ghost predicate Pooled(pool: seq<Slot>, mask: bv32) {
    && (forall k {:trigger pool[k]} :: 0 <= k < |pool| ==> -1 <= pool[k].next < k)
    && forall k {:trigger pool[k]} :: 0 <= k < |pool| && pool[k].next >= 0 ==>
         BucketOf(pool[pool[k].next].entry.val, mask) == BucketOf(pool[k].entry.val, mask)
  }

  /** The entries from place `e` on along the links. */
  ghost function Chain(pool: seq<Slot>, e: int): seq<IndexEntry>
    decreases e
  {
    if 0 <= e < |pool| then [pool[e].entry] + (if pool[e].next < e then Chain(pool, pool[e].next) else []) else []
  }

  /** A change to other buckets, or an addition behind, does not show in a chain. */
  lemma {:induction false} ChainSame(pool: seq<Slot>, after: seq<Slot>, mask: bv32, e: int, i: BucketNr)
    requires Pooled(pool, mask) && e < |pool| <= |after| && (e >= 0 ==> BucketOf(pool[e].entry.val, mask) == i)
    requires forall k {:trigger after[k]} :: 0 <= k < |pool| && BucketOf(pool[k].entry.val, mask) == i ==>
      after[k] == pool[k]
    ensures Chain(after, e) == Chain(pool, e)
    decreases e
  {
    hide BucketOf;
    if e >= 0 {
      assert after[e] == pool[e];
      if pool[e].next >= 0 {
        ChainSame(pool, after, mask, pool[e].next, i);
      }
    }
  }

  /** Every bucket's chain holds exactly its entries among `es`. */
  ghost predicate Hashed(pool: seq<Slot>, hash: map<BucketNr, int>, mask: bv32, es: seq<IndexEntry>) {
    && Pooled(pool, mask)
    && (forall i :: i in hash ==> 0 <= hash[i] < |pool| && BucketOf(pool[hash[i]].entry.val, mask) == i)
    && (forall i: BucketNr :: Chain(pool, Head(hash, i)) == InBucket(es, mask, i))
  }

  /** The head of a bucket, or a negative number if it is empty. */
  function Head(hash: map<BucketNr, int>, i: BucketNr): int {
    if i in hash && hash[i] >= 0 then hash[i] else -1
  }

  function Count(counts: map<BucketNr, int>, i: BucketNr): int {
    if i in counts then counts[i] else 0
  }

  /** Prepend a new entry to its bucket. */
  lemma Prepended(pool: seq<Slot>, hash: map<BucketNr, int>, mask: bv32, es: seq<IndexEntry>, e: IndexEntry,
      b: BucketNr, after: seq<Slot>, hash': map<BucketNr, int>)
    requires Hashed(pool, hash, mask, es) && b == BucketOf(e.val, mask)
    requires after == pool + [Slot(e, Head(hash, b))] && hash' == hash[b := |pool|]
    ensures Hashed(after, hash', mask, [e] + es)
  {
    hide BucketOf, Chain, InBucket;
    assert after[|pool|] == Slot(e, Head(hash, b));
    assert forall k {:trigger after[k]} :: 0 <= k < |pool| ==> after[k] == pool[k];
    assert Pooled(after, mask);
    assert forall i :: i in hash' ==> 0 <= hash'[i] < |after| && BucketOf(after[hash'[i]].entry.val, mask) == i;
    forall i: BucketNr ensures Chain(after, Head(hash', i)) == InBucket([e] + es, mask, i) {
      PrependedAt(pool, hash, mask, es, e, b, after, hash', i);
    }
  }

  lemma PrependedAt(pool: seq<Slot>, hash: map<BucketNr, int>, mask: bv32, es: seq<IndexEntry>, e: IndexEntry,
      b: BucketNr, after: seq<Slot>, hash': map<BucketNr, int>, i: BucketNr)
    requires Hashed(pool, hash, mask, es) && b == BucketOf(e.val, mask)
    requires after == pool + [Slot(e, Head(hash, b))] && hash' == hash[b := |pool|]
    ensures Chain(after, Head(hash', i)) == InBucket([e] + es, mask, i)
  {
    hide BucketOf;
    assert Chain(pool, Head(hash, i)) == InBucket(es, mask, i);
    assert ([e] + es)[1..] == es;
    ChainSame(pool, after, mask, Head(hash, i), i);
    if i == b {
      assert after[|pool|] == Slot(e, Head(hash, b));
      assert Chain(after, |pool|) == [e] + Chain(after, Head(hash, b));
      assert ([e] + es)[0] == e;
      assert InBucket([e] + es, mask, i) == [e] + InBucket(es, mask, i);
    }
  }

  /** Give the newest entry a lower place; it is the head of its bucket. */
  lemma Lowered(pool: seq<Slot>, hash: map<BucketNr, int>, mask: bv32, es: seq<IndexEntry>, e: IndexEntry, last: nat,
      after: seq<Slot>)
    requires Hashed(pool, hash, mask, es) && |pool| == last + 1 && es != [] && pool[last].entry == es[0]
    requires Head(hash, BucketOf(es[0].val, mask)) == last && e.val == es[0].val
    requires after == pool[last := pool[last].(entry := e)]
    ensures Hashed(after, hash, mask, [e] + es[1..])
  {
    hide BucketOf, Chain, InBucket;
    assert forall k {:trigger after[k]} :: 0 <= k <= last ==>
      after[k].entry.val == pool[k].entry.val && after[k].next == pool[k].next;
    forall i: BucketNr ensures Chain(after, Head(hash, i)) == InBucket([e] + es[1..], mask, i) {
      LoweredAt(pool, hash, mask, es, e, last, after, i);
    }
  }

  lemma LoweredAt(pool: seq<Slot>, hash: map<BucketNr, int>, mask: bv32, es: seq<IndexEntry>, e: IndexEntry, last: nat,
      after: seq<Slot>, i: BucketNr)
    requires Hashed(pool, hash, mask, es) && |pool| == last + 1 && es != [] && pool[last].entry == es[0]
    requires Head(hash, BucketOf(es[0].val, mask)) == last && e.val == es[0].val
    requires after == pool[last := pool[last].(entry := e)]
    ensures Chain(after, Head(hash, i)) == InBucket([e] + es[1..], mask, i)
  {
    hide BucketOf;
    assert Chain(pool, Head(hash, i)) == InBucket(es, mask, i);
    assert ([e] + es[1..])[1..] == es[1..];
    if i != BucketOf(e.val, mask) {
      ChainSame(pool, after, mask, Head(hash, i), i);
    } else {
      if pool[last].next >= 0 {
        ChainBelow(pool, after, mask, pool[last].next);
      }
      HeadOfChain(pool, last, es[0], InBucket(es[1..], mask, i));
      assert Chain(after, last) == [e] + Chain(after, pool[last].next);
    }
  }

  /** A change to the newest place does not show in chains that start below it. */
  lemma {:induction false} ChainBelow(pool: seq<Slot>, after: seq<Slot>, mask: bv32, e: int)
    requires Pooled(pool, mask) && |after| == |pool| && e < |pool| - 1
    requires forall k {:trigger after[k]} :: 0 <= k < |pool| - 1 ==> after[k] == pool[k]
    ensures Chain(after, e) == Chain(pool, e)
    decreases e
  {
    if e >= 0 {
      assert after[e] == pool[e];
      if pool[e].next >= 0 {
        ChainBelow(pool, after, mask, pool[e].next);
      }
    }
  }

  lemma HeadOfChain(pool: seq<Slot>, e: nat, entry: IndexEntry, rest: seq<IndexEntry>)
    requires e < |pool| && pool[e].next < e && Chain(pool, e) == [entry] + rest
    ensures Chain(pool, pool[e].next) == rest
  {
    assert Chain(pool, e)[1..] == rest;
  }

  // ---- Filling the table --------------------------------------------------------------------

  /** The hash of the block after position `data`. */
  method HashBlock(t: Tables, src: seq<byte>, data: nat) returns (val: bv32)
    requires t.Valid() && data + RABIN_WINDOW < |src|
    ensures val == Hash(t, src[data + 1..data + 17])
  {
    hide Roll;
    NoHash(t);
    val := 0;
    var i := 1;
    assert src[data + 1..data + 1] == [];
    while i <= RABIN_WINDOW
      invariant 1 <= i <= RABIN_WINDOW + 1 && val == Hash(t, src[data + 1..data + i])
    {
      HashNext(t, src[data + 1..data + i], src[data + i]);
      assert src[data + 1..data + i + 1] == src[data + 1..data + i] + [src[data + i]];
      val := Roll(t, val, src[data + i]);
      i := i + 1;
    }
  }

  /** The table holds `es`, the newest entry first, and the buckets are counted. */
  ghost predicate Filled(pool: seq<Slot>, hash: map<BucketNr, int>, counts: map<BucketNr, int>, mask: bv32,
      es: seq<IndexEntry>)
  {
    && Hashed(pool, hash, mask, es) && |pool| == |es|
    && (forall i :: Count(counts, i) == |InBucket(es, mask, i)|)
    && (es != [] ==> pool[|pool| - 1].entry == es[0] && Head(hash, BucketOf(es[0].val, mask)) == |pool| - 1)
  }

  lemma InBucketMore(es: seq<IndexEntry>, mask: bv32, e: IndexEntry, i: BucketNr)
    ensures InBucket([e] + es, mask, i) == (if i == BucketOf(e.val, mask) then [e] else []) + InBucket(es, mask, i)
  {
    hide BucketOf;
    assert ([e] + es)[1..] == es && ([e] + es)[0] == e;
  }

  lemma HeadSet(hash: map<BucketNr, int>, b: BucketNr, k: nat)
    ensures Head(hash[b := k], b) == k
  {}

  lemma FilledNext(pool: seq<Slot>, hash: map<BucketNr, int>, counts: map<BucketNr, int>, mask: bv32,
      es: seq<IndexEntry>, e: IndexEntry, b: BucketNr, after: seq<Slot>, hash': map<BucketNr, int>,
      counts': map<BucketNr, int>)
    requires Filled(pool, hash, counts, mask, es) && b == BucketOf(e.val, mask)
    requires es == [] || es[0].val != e.val
    requires after == pool + [Slot(e, Head(hash, b))] && hash' == hash[b := |pool|]
    requires counts' == counts[b := Count(counts, b) + 1]
    ensures Filled(after, hash', counts', mask, AddBlock(es, e))
  {
    hide BucketOf, Hashed, InBucket, Head;
    Prepended(pool, hash, mask, es, e, b, after, hash');
    forall i ensures Count(counts', i) == |InBucket([e] + es, mask, i)| {
      InBucketMore(es, mask, e, i);
      assert Count(counts, i) == |InBucket(es, mask, i)|;
    }
    HeadSet(hash, b, |pool|);
  }

  lemma FilledLower(pool: seq<Slot>, hash: map<BucketNr, int>, counts: map<BucketNr, int>, mask: bv32,
      es: seq<IndexEntry>, e: IndexEntry, last: nat, after: seq<Slot>)
    requires Filled(pool, hash, counts, mask, es)
    requires es != [] && es[0].val == e.val && |pool| == last + 1 && after == pool[last := pool[last].(entry := e)]
    ensures Filled(after, hash, counts, mask, AddBlock(es, e))
  {
    Lowered(pool, hash, mask, es, e, last, after);
    hide BucketOf, Hashed;
    var es' := [e] + es[1..];
    assert es'[1..] == es[1..] && es'[0] == e;
    forall i ensures |InBucket(es', mask, i)| == |InBucket(es, mask, i)| {
      assert InBucket(es', mask, i) == (if i == BucketOf(e.val, mask) then [e] else []) + InBucket(es[1..], mask, i);
    }
  }

  /** The loop over the blocks, from the last to the first. */
  method Populate(t: Tables, src: seq<byte>, n: nat, mask: bv32)
    returns (pool: array<Slot>, count: nat, hash: map<BucketNr, int>, counts: map<BucketNr, int>, entries: nat)
    requires t.Valid() && (n > 0 ==> RABIN_WINDOW * n < |src|)
    ensures fresh(pool) && count <= pool.Length && entries == count
    ensures Filled(pool[..count], hash, counts, mask, Blocks(t, src, 0, n))
  {
    hide Filled, Blocks, Hash, BlockHash, AddBlock;
    pool := new Slot[n](_ => Slot(IndexEntry(0, 0), -1));
    NoBlocks(t, src, n);
    count, hash, counts, entries := 0, map[], map[], n;
    var prevVal: bv32 := 0xffff_ffff;
    var b := n;
    FilledEmpty(mask);
    assert pool[..0] == [];
    while b > 0
      invariant 0 <= b <= n && fresh(pool) && pool.Length == n && b + count <= n && entries == b + count
      invariant Filled(pool[..count], hash, counts, mask, Blocks(t, src, b, n))
      invariant prevVal == if b < n then BlockHash(t, src, b) else 0xffff_ffff
    {
      b := b - 1;
      BlocksStep(t, src, b, n);
      var val := HashBlock(t, src, RABIN_WINDOW * b);
      ghost var es := Blocks(t, src, b + 1, n);
      count, hash, counts :=
        PutBlock(pool, count, hash, counts, mask, IndexEntry(RABIN_WINDOW * b + RABIN_WINDOW, val), prevVal, es);
      if val == prevVal {
        entries := entries - 1;
      }
      prevVal := val;
    }
  }

  lemma BlocksStep(t: Tables, src: seq<byte>, b: nat, n: nat)
    requires t.Valid() && b < n && RABIN_WINDOW * n < |src|
    ensures RABIN_WINDOW * (b + 1) < |src| &&
      BlockHash(t, src, b) == Hash(t, src[RABIN_WINDOW * b + 1..RABIN_WINDOW * b + 17])
    ensures Blocks(t, src, b, n) ==
            AddBlock(Blocks(t, src, b + 1, n), IndexEntry(RABIN_WINDOW * b + RABIN_WINDOW, BlockHash(t, src, b)))
    ensures var es := Blocks(t, src, b + 1, n);
      if es == [] then b + 1 == n else b + 1 < n && es[0].val == BlockHash(t, src, b + 1)
  {
  }

  lemma FilledEmpty(mask: bv32)
    ensures Filled([], map[], map[], mask, [])
  {
  }

  /** One block: lower the newest entry, or take a new one. */
  method PutBlock(pool: array<Slot>, count: nat, hash: map<BucketNr, int>, counts: map<BucketNr, int>, mask: bv32,
      e: IndexEntry, prevVal: bv32, ghost es: seq<IndexEntry>)
    returns (count': nat, hash': map<BucketNr, int>, counts': map<BucketNr, int>)
    requires count < pool.Length && Filled(pool[..count], hash, counts, mask, es)
    requires e.val < 0x8000_0000 && prevVal == if es == [] then 0xffff_ffff else es[0].val
    modifies pool
    ensures count' == (if e.val == prevVal then count else count + 1) <= pool.Length
    ensures Filled(pool[..count'], hash', counts', mask, AddBlock(es, e))
  {
    hide Filled, BucketOf;
    ghost var was := pool[..count];
    FilledSize(was, hash, counts, mask, es);
    count', hash', counts' := count, hash, counts;
    if e.val == prevVal {
      assert e.val != 0xffff_ffff;
      pool[count - 1] := pool[count - 1].(entry := e);
      FilledLower(was, hash, counts, mask, es, e, count - 1, pool[..count]);
    } else {
      var i := BucketOf(e.val, mask);
      pool[count] := Slot(e, Head(hash, i));
      assert pool[..count + 1] == was + [Slot(e, Head(hash, i))];
      hash' := hash[i := count];
      counts' := counts[i := Count(counts, i) + 1];
      count' := count + 1;
      FilledNext(was, hash, counts, mask, es, e, i, pool[..count + 1], hash', counts');
    }
  }

  lemma FilledSize(pool: seq<Slot>, hash: map<BucketNr, int>, counts: map<BucketNr, int>, mask: bv32,
      es: seq<IndexEntry>)
    requires Filled(pool, hash, counts, mask, es)
    ensures |pool| == |es|
  {
  }

  // ---- Thinning a crowded bucket ------------------------------------------------------------

  /** The places of a chain's entries. */
  ghost function Places(pool: seq<Slot>, e: int): (at: seq<nat>)
    ensures |at| == |Chain(pool, e)|
    decreases e
  {
    if 0 <= e < |pool| then [e] + (if pool[e].next < e then Places(pool, pool[e].next) else []) else []
  }

  /** `at` are the places of a chain with these entries, in bucket `i`. */
  ghost predicate LinkedAt(pool: seq<Slot>, chain: seq<IndexEntry>, at: seq<nat>, mask: bv32, i: BucketNr) {
    && |at| == |chain|
    && (forall k {:trigger at[k]} :: 0 <= k < |at| ==> at[k] < |pool|)
    && (forall k {:trigger at[k]} :: 0 <= k < |at| ==>
         pool[at[k]].entry == chain[k] && pool[at[k]].next == Stop(at, k + 1))
    && (forall k {:trigger at[k]} :: 0 <= k < |at| ==> BucketOf(pool[at[k]].entry.val, mask) == i)
  }

  lemma {:induction false} PlacesLink(pool: seq<Slot>, mask: bv32, e: int, i: BucketNr)
    requires Pooled(pool, mask) && -1 <= e < |pool| && (e >= 0 ==> BucketOf(pool[e].entry.val, mask) == i)
    ensures LinkedAt(pool, Chain(pool, e), Places(pool, e), mask, i) && Stop(Places(pool, e), 0) == e
    decreases e
  {
    hide BucketOf;
    if e >= 0 {
      var next := pool[e].next;
      PlacesLink(pool, mask, next, i);
      LinkedNext(pool, Chain(pool, next), Places(pool, next), mask, i, e);
    }
  }

  lemma LinkedNext(pool: seq<Slot>, chain: seq<IndexEntry>, at: seq<nat>, mask: bv32, i: BucketNr, e: nat)
    requires LinkedAt(pool, chain, at, mask, i) && e < |pool| && pool[e].next == Stop(at, 0)
    requires BucketOf(pool[e].entry.val, mask) == i
    ensures LinkedAt(pool, [pool[e].entry] + chain, [e] + at, mask, i)
  {
    hide BucketOf;
    var at', chain' := [e] + at, [pool[e].entry] + chain;
    forall k {:trigger at'[k]} | 0 <= k < |at'|
      ensures at'[k] < |pool| && pool[at'[k]].entry == chain'[k] && pool[at'[k]].next == Stop(at', k + 1)
      ensures BucketOf(pool[at'[k]].entry.val, mask) == i
    {
      StopNext(e, at, k);
      if k > 0 {
        assert at'[k] == at[k - 1] && chain'[k] == chain[k - 1];
      }
    }
  }

  lemma StopNext(e: nat, at: seq<nat>, k: nat)
    ensures Stop([e] + at, k + 1) == Stop(at, k)
  {
  }

  lemma {:induction false} PlacesFall(at: seq<nat>, j: nat, k: nat)
    requires j < k < |at| && Falling(at)
    ensures at[k] < at[j]
    decreases k - j
  {
    if j + 1 < k {
      PlacesFall(at, j, k - 1);
    }
  }

  /** Where the k-th step of the thinning stands: on an entry, or behind the last one. */
  function Stop(at: seq<nat>, p: nat): int {
    if p < |at| then at[p] else -1
  }

  /** After `k` steps the first `k` entries to keep are linked, and all from the next stop on is as it was. */
  ghost predicate Thinning(was: seq<Slot>, pool: seq<Slot>, at: seq<nat>, k: nat, p: nat) {
    && Untouched(was, pool, at, p)
    && (forall j: nat {:trigger Place(j, |at|)} :: j < k ==>
          Place(j, |at|) < |at| && at[Place(j, |at|)] < |pool| &&
          pool[at[Place(j, |at|)]].next == Stop(at, Place(j + 1, |at|)))
  }

  /** Balance and place determine each other. */
  lemma PlaceOf(k: nat, n: nat, p: nat, acc: int)
    requires acc == k * n - HASH_LIMIT * p && -64 < acc <= 0
    ensures p == Place(k, n)
  {
  }

  /** As long as entries are left, fewer than HASH_LIMIT were kept, and the next one is in reach. */
  lemma StepsLeft(k: nat, n: nat, p: nat)
    requires n > HASH_LIMIT && p == Place(k, n) < n
    ensures k < HASH_LIMIT && Place(k + 1, n) <= n
  {
    PlaceBound(k, n);
    PlaceBound(k + 1, n);
  }

  lemma PlaceBound(k: nat, n: nat)
    ensures if k <= HASH_LIMIT then Place(k, n) <= n else Place(k, n) >= n
    ensures k == HASH_LIMIT ==> Place(k, n) == n
  {
    if k <= HASH_LIMIT {
      Grows(k, HASH_LIMIT, n);
    } else {
      Grows(HASH_LIMIT, k, n);
    }
  }

  lemma Grows(j: nat, k: nat, n: nat)
    requires j <= k
    ensures j * n <= k * n
  {
  }

  /** Linking the entry at the present stop to the next one to keep. */
  lemma ThinningStep(was: seq<Slot>, pool: seq<Slot>, at: seq<nat>, k: nat, p: nat, after: seq<Slot>, next: nat,
      chain: seq<IndexEntry>, mask: bv32, i: BucketNr)
    requires LinkedAt(was, chain, at, mask, i) && Falling(at) && |at| > HASH_LIMIT
    requires Thinning(was, pool, at, k, p) && p == Place(k, |at|) < |at| && next == Place(k + 1, |at|) > p
    requires at[p] < |pool| && after == pool[at[p] := pool[at[p]].(next := Stop(at, next))]
    ensures Thinning(was, after, at, k + 1, next)
  {
    hide *;
    StepsLeft(k, |at|, p);
    InPool(was, chain, at, mask, i, p);
    StopFalls(at, p, next);
    StepKeeps(was, pool, at, k, p, after, next);
    forall j: nat {:trigger Place(j, |at|)} | j < k + 1
      ensures Place(j, |at|) < |at| && at[Place(j, |at|)] < |pool|
      ensures after[at[Place(j, |at|)]].next == Stop(at, Place(j + 1, |at|))
    {
      if j < k {
        PlacesAscend(j + 1, k, |at|);
        PlaceInRange(j, |at|);
        PlacesFall(at, Place(j, |at|), p);
        KeptLink(was, pool, at, k, p, j);
      }
    }
    StepDone(was, after, at, k + 1, next);
  }

  /** One kept entry of a thinning. */
  lemma KeptLink(was: seq<Slot>, pool: seq<Slot>, at: seq<nat>, k: nat, p: nat, j: nat)
    requires Thinning(was, pool, at, k, p) && j < k
    ensures |pool| == |was| && Place(j, |at|) < |at| && at[Place(j, |at|)] < |pool|
    ensures pool[at[Place(j, |at|)]].next == Stop(at, Place(j + 1, |at|))
  {
    hide Place;
  }

  /** All but the links of the kept entries. */
  ghost predicate Untouched(was: seq<Slot>, pool: seq<Slot>, at: seq<nat>, p: nat) {
    && |pool| == |was|
    && (forall x {:trigger pool[x]} :: 0 <= x < |was| ==> pool[x].entry == was[x].entry)
    && (forall x {:trigger pool[x]} :: 0 <= x < |was| ==> pool[x] == was[x] || Relinked(pool[x], at, x, p))
  }

  /** A slot of the bucket, before the present stop, linked to an older one of the bucket. */
  ghost predicate Relinked(slot: Slot, at: seq<nat>, x: int, p: nat) {
    x in at && Stop(at, p) < x && -1 <= slot.next < x && (slot.next >= 0 ==> slot.next in at)
  }

  lemma StepKeeps(was: seq<Slot>, pool: seq<Slot>, at: seq<nat>, k: nat, p: nat, after: seq<Slot>, next: nat)
    requires Thinning(was, pool, at, k, p) && p < |at| && at[p] < |was| && Stop(at, next) < at[p] == Stop(at, p)
    requires |pool| == |was| ==> after == pool[at[p] := pool[at[p]].(next := Stop(at, next))]
    ensures |pool| == |was| && Untouched(was, after, at, next)
  {
    hide Place;
    assert at[p] in at;
  }

  lemma StepDone(was: seq<Slot>, pool: seq<Slot>, at: seq<nat>, k: nat, p: nat)
    requires Untouched(was, pool, at, p)
    requires forall j: nat {:trigger Place(j, |at|)} :: j < k ==>
      Place(j, |at|) < |at| && at[Place(j, |at|)] < |pool| &&
        pool[at[Place(j, |at|)]].next == Stop(at, Place(j + 1, |at|))
    ensures Thinning(was, pool, at, k, p)
  {
    hide Place;
  }

  ghost predicate Falling(at: seq<nat>) {
    forall m {:trigger at[m]} :: 0 < m < |at| ==> at[m] < at[m - 1]
  }

  lemma InPool(pool: seq<Slot>, chain: seq<IndexEntry>, at: seq<nat>, mask: bv32, i: BucketNr, p: nat)
    requires LinkedAt(pool, chain, at, mask, i) && p < |at|
    ensures |at| == |chain| && Stop(at, p) == at[p] < |pool| && pool[at[p]] == Slot(chain[p], Stop(at, p + 1))
  {
  }

  lemma StopFalls(at: seq<nat>, p: nat, next: nat)
    requires Falling(at) && p < |at| && p < next
    ensures Stop(at, next) < at[p]
  {
    if next < |at| {
      PlacesFall(at, p, next);
    }
  }

  /** Links of a pool lead to older entries, so places fall. */
  lemma LinkedFalls(pool: seq<Slot>, chain: seq<IndexEntry>, at: seq<nat>, mask: bv32, i: BucketNr)
    requires Pooled(pool, mask) && LinkedAt(pool, chain, at, mask, i)
    ensures Falling(at)
  {
    hide BucketOf;
    forall m | 0 < m < |at| ensures at[m] < at[m - 1] {
      assert pool[at[m - 1]].next == Stop(at, m);
    }
  }

  /** When all entries are passed, the kept ones are linked to each other. */
  lemma {:induction false} ThinnedFrom(was: seq<Slot>, pool: seq<Slot>, at: seq<nat>, k: nat, chain: seq<IndexEntry>,
      mask: bv32, i: BucketNr)
    requires LinkedAt(was, chain, at, mask, i) && Falling(at) && |at| > HASH_LIMIT
    requires Thinning(was, pool, at, HASH_LIMIT, |at|) && k <= HASH_LIMIT && |at| == |chain|
    ensures Chain(pool, Stop(at, Place(k, |at|))) == Thinned(chain)[k..]
    decreases HASH_LIMIT - k
  {
    hide *;
    PlaceBound(k, |at|);
    ThinnedParts(chain, k);
    if k < HASH_LIMIT {
      var p, next := Place(k, |at|), Place(k + 1, |at|);
      PlaceInRange(k, |at|);
      InPool(was, chain, at, mask, i, p);
      StopFalls(at, p, next);
      ThinnedFrom(was, pool, at, k + 1, chain, mask, i);
      KeptLink(was, pool, at, HASH_LIMIT, |at|, k);
      SameEntry(was, pool, at, HASH_LIMIT, |at|, at[p]);
      ChainStep(pool, at[p]);
    } else {
      ChainEnd(pool, at);
    }
  }

  lemma SameEntry(was: seq<Slot>, pool: seq<Slot>, at: seq<nat>, k: nat, p: nat, x: nat)
    requires Thinning(was, pool, at, k, p) && x < |was|
    ensures |pool| == |was| && pool[x].entry == was[x].entry
  {
    hide Place;
  }

  lemma ThinnedParts(chain: seq<IndexEntry>, k: nat)
    requires |chain| > HASH_LIMIT && k <= HASH_LIMIT
    ensures |Thinned(chain)| == HASH_LIMIT
    ensures k == HASH_LIMIT ==> Thinned(chain)[k..] == []
    ensures k < HASH_LIMIT ==> Place(k, |chain|) < |chain|
    ensures k < HASH_LIMIT ==>
      Thinned(chain)[k..] == [chain[Place(k, |chain|)]] + Thinned(chain)[k + 1..]
  {
    if k < HASH_LIMIT {
      PlaceInRange(k, |chain|);
      hide Place;
      assert Thinned(chain)[k] == chain[Place(k, |chain|)];
    }
  }

  lemma ChainStep(pool: seq<Slot>, e: nat)
    requires e < |pool| && pool[e].next < e
    ensures Chain(pool, e) == [pool[e].entry] + Chain(pool, pool[e].next)
  {
  }

  lemma ChainEnd(pool: seq<Slot>, at: seq<nat>)
    ensures Stop(at, |at|) == -1 && Chain(pool, Stop(at, |at|)) == []
  {
  }

  /** The inner loop: pass over the entries to drop, until the balance is settled. */
  method PassOver(pool: array<Slot>, e0: nat, acc0: int, ghost at: seq<nat>, ghost k: nat, ghost p: nat)
    returns (e: nat, acc: int, ghost q: nat)
    requires |at| > HASH_LIMIT && k < HASH_LIMIT && p < |at| && e0 == at[p]
    requires acc0 == (k + 1) * |at| - HASH_LIMIT * (p + 1) && acc0 > 0
    requires forall x {:trigger at[x]} :: p <= x < |at| ==> at[x] < pool.Length && pool[at[x]].next == Stop(at, x + 1)
    ensures p < q < |at| && e == at[q] && acc == (k + 1) * |at| - HASH_LIMIT * (q + 1) && -64 < acc <= 0
  {
    e, acc, q := e0, acc0, p;
    while acc > 0
      invariant p <= q < |at| && e == at[q] && acc == (k + 1) * |at| - HASH_LIMIT * (q + 1) && -64 < acc
      invariant q == p ==> acc > 0
      decreases |at| - q
    {
      InReach(k, |at|, q);
      assert pool[at[q]].next == Stop(at, q + 1);
      e := pool[e].next;
      acc := acc - HASH_LIMIT;
      q := q + 1;
    }
  }

  lemma InReach(k: nat, n: nat, q: nat)
    requires k < HASH_LIMIT && (k + 1) * n - HASH_LIMIT * (q + 1) > 0
    ensures q + 1 < n
  {
    Grows(k + 1, HASH_LIMIT, n);
  }

  /** One step of the outer loop: keep the present entry and link it to the next one to keep. */
  method KeepOne(pool: array<Slot>, mask: bv32, e: nat, acc0: int, n: nat, ghost was: seq<Slot>,
      ghost chain: seq<IndexEntry>, ghost i: BucketNr, ghost at: seq<nat>, ghost k: nat, ghost p: nat)
    returns (next: int, acc: int, ghost q: nat)
    requires LinkedAt(was, chain, at, mask, i) && Falling(at) && |at| == n > HASH_LIMIT
    requires |was| <= pool.Length && Thinning(was, pool[..|was|], at, k, p)
    requires p == Place(k, n) < n && e == at[p] && acc0 == k * n - HASH_LIMIT * p && -64 < acc0 <= 0
    modifies pool
    ensures Thinning(was, pool[..|was|], at, k + 1, q) && q == Place(k + 1, n) <= n && k < HASH_LIMIT
    ensures next == Stop(at, q) && acc == (k + 1) * n - HASH_LIMIT * q && -64 < acc <= 0
  {
    hide *;
    StepsLeft(k, n, p);
    NextProduct(k, n);
    StillLinked(was, pool[..|was|], chain, at, mask, i, k, p);
    var cur := e;
    acc, q := acc0 + n - HASH_LIMIT, p;
    ghost var now := pool[..|was|];
    if acc > 0 {
      cur, acc, q := PassOver(pool, e, acc, at, k, p);
      pool[e] := pool[e].(next := pool[cur].next);
    }
    next := pool[cur].next;
    q := q + 1;
    PlaceOf(k + 1, n, q, acc);
    SameLink(now, at[p], Stop(at, q));
    ThinningStep(was, now, at, k, p, pool[..|was|], q, chain, mask, i);
  }

  lemma NextProduct(k: nat, n: nat)
    ensures (k + 1) * n == k * n + n
  {
  }

  /** The entries from the present stop on are still linked as they were. */
  lemma StillLinked(was: seq<Slot>, pool: seq<Slot>, chain: seq<IndexEntry>, at: seq<nat>, mask: bv32, i: BucketNr,
      k: nat, p: nat)
    requires LinkedAt(was, chain, at, mask, i) && Falling(at) && Thinning(was, pool, at, k, p) && p < |at|
    ensures |pool| == |was|
    ensures forall x {:trigger at[x]} :: p <= x < |at| ==> at[x] < |pool| && pool[at[x]].next == Stop(at, x + 1)
  {
    forall x | p <= x < |at| ensures at[x] < |pool| && pool[at[x]].next == Stop(at, x + 1) {
      InPool(was, chain, at, mask, i, x);
      if p < x {
        PlacesFall(at, p, x);
      }
      hide Place, LinkedAt;
      assert pool[at[x]] == was[at[x]];
    }
  }

  lemma SameLink(pool: seq<Slot>, e: nat, next: int)
    requires e < |pool|
    ensures pool[e].next == next ==> pool[e := pool[e].(next := next)] == pool
  {
  }

  /** All the entries of a chain lie in its bucket, so a thinned pool is still linked within buckets. */
  lemma ThinnedPooled(was: seq<Slot>, pool: seq<Slot>, at: seq<nat>, k: nat, p: nat, chain: seq<IndexEntry>,
      mask: bv32, i: BucketNr)
    requires Pooled(was, mask) && LinkedAt(was, chain, at, mask, i) && Thinning(was, pool, at, k, p)
    ensures Pooled(pool, mask) && |pool| == |was|
    ensures forall x {:trigger pool[x]} :: 0 <= x < |pool| ==> pool[x].entry == was[x].entry
    ensures forall x {:trigger pool[x]} :: 0 <= x < |pool| && BucketOf(pool[x].entry.val, mask) != i ==>
      pool[x] == was[x]
  {
    hide BucketOf, Place;
    assert Untouched(was, pool, at, p);
    hide Thinning;
    forall x {:trigger pool[x]} | 0 <= x < |pool|
      ensures -1 <= pool[x].next < x
      ensures BucketOf(pool[x].entry.val, mask) != i ==> pool[x] == was[x]
      ensures pool[x].next >= 0 ==> BucketOf(pool[pool[x].next].entry.val, mask) == BucketOf(pool[x].entry.val, mask)
    {
      assert pool[x].entry == was[x].entry;
      if pool[x] == was[x] {
        if was[x].next >= 0 {
          assert pool[was[x].next].entry == was[was[x].next].entry;
        }
      } else {
        OfBucket(was, chain, at, mask, i, x);
        if pool[x].next >= 0 {
          OfBucket(was, chain, at, mask, i, pool[x].next);
          assert pool[pool[x].next].entry == was[pool[x].next].entry;
        }
      }
    }
  }

  lemma OfBucket(was: seq<Slot>, chain: seq<IndexEntry>, at: seq<nat>, mask: bv32, i: BucketNr, x: nat)
    requires LinkedAt(was, chain, at, mask, i) && x in at
    ensures x < |was| && BucketOf(was[x].entry.val, mask) == i
  {
    var k :| 0 <= k < |at| && at[k] == x;
  }

  lemma ThinningStarts(was: seq<Slot>, at: seq<nat>)
    ensures Thinning(was, was, at, 0, 0) && Place(0, |at|) == 0
  {
  }

  /** Thin out one crowded bucket: of its entries exactly those at the even distances stay, in order. */
  method CullBucket(pool: array<Slot>, count: nat, mask: bv32, head: nat, n: nat, ghost i: BucketNr)
    requires count <= pool.Length && Pooled(pool[..count], mask) && head < count
    requires BucketOf(pool[head].entry.val, mask) == i && n == |Chain(pool[..count], head)| > HASH_LIMIT
    modifies pool
    ensures Pooled(pool[..count], mask)
    ensures Chain(pool[..count], head) == Thinned(old(Chain(pool[..count], head)))
    ensures forall x {:trigger pool[x]} :: 0 <= x < count ==> pool[x].entry == old(pool[x].entry)
    ensures forall x {:trigger pool[x]} :: 0 <= x < count && BucketOf(pool[x].entry.val, mask) != i ==>
      pool[x] == old(pool[x])
  {
    hide *;
    ghost var was, chain := pool[..count], Chain(pool[..count], head);
    ghost var at := Places(was, head);
    PlacesLink(was, mask, head, i);
    LinkedFalls(was, chain, at, mask, i);
    ThinningStarts(was, at);
    PlacesFirst(was, head);
    var entry, acc := head, 0;
    ghost var k, p := 0, 0;
    while entry >= 0
      invariant p == Place(k, n) <= n && entry == Stop(at, p) && acc == k * n - HASH_LIMIT * p && -64 < acc <= 0
      invariant k <= HASH_LIMIT && Thinning(was, pool[..count], at, k, p)
      decreases HASH_LIMIT - k
    {
      StopIn(at, p);
      entry, acc, p := KeepOne(pool, mask, entry, acc, n, was, chain, i, at, k, p);
      k := k + 1;
    }
    StopOut(at, p);
    KeptAll(k, n, p);
    ThinnedFrom(was, pool[..count], at, 0, chain, mask, i);
    ThinnedPooled(was, pool[..count], at, k, p, chain, mask, i);
    assert Thinned(chain)[0..] == Thinned(chain);
    assert forall x {:trigger pool[x]} :: 0 <= x < count ==> pool[x] == pool[..count][x] && old(pool[x]) == was[x];
  }

  lemma PlacesFirst(pool: seq<Slot>, head: nat)
    requires head < |pool|
    ensures |Places(pool, head)| > 0 && Places(pool, head)[0] == head == Stop(Places(pool, head), 0)
  {
  }

  lemma StopIn(at: seq<nat>, p: nat)
    ensures Stop(at, p) >= 0 ==> p < |at| && Stop(at, p) == at[p]
  {
  }

  lemma StopOut(at: seq<nat>, p: nat)
    ensures Stop(at, p) < 0 ==> p >= |at|
  {
  }

  /** The last entry is passed after exactly HASH_LIMIT steps, with the balance at zero. */
  lemma KeptAll(k: nat, n: nat, p: nat)
    requires n > HASH_LIMIT && k <= HASH_LIMIT && p == Place(k, n) == n
    ensures k == HASH_LIMIT && k * n - HASH_LIMIT * p == 0
  {
    if k < HASH_LIMIT {
      PlaceInRange(k, n);
    }
  }

  // ---- All buckets --------------------------------------------------------------------------

  /** The buckets one after the other; those of `done` are thinned out. */
  ghost predicate Culled(pool: seq<Slot>, hash: map<BucketNr, int>, mask: bv32, es: seq<IndexEntry>,
      done: set<BucketNr>)
  {
    && Pooled(pool, mask)
    && (forall i :: i in hash ==> 0 <= hash[i] < |pool| && BucketOf(pool[hash[i]].entry.val, mask) == i)
    && (forall i: BucketNr :: Chain(pool, Head(hash, i)) ==
          if i in done then Thinned(InBucket(es, mask, i)) else InBucket(es, mask, i))
  }

  /** How many entries of `es` the buckets hold, before and after thinning. */
  ghost function Sum(es: seq<IndexEntry>, mask: bv32, order: seq<BucketNr>): nat {
    if order == [] then 0 else Sum(es, mask, order[..|order| - 1]) + |InBucket(es, mask, order[|order| - 1])|
  }

  ghost function SumThinned(es: seq<IndexEntry>, mask: bv32, order: seq<BucketNr>): nat {
    if order == [] then 0
    else SumThinned(es, mask, order[..|order| - 1]) + |Thinned(InBucket(es, mask, order[|order| - 1]))|
  }

  lemma {:induction false} SumOfNone(mask: bv32, order: seq<BucketNr>)
    ensures Sum([], mask, order) == 0
  {
    if order != [] {
      SumOfNone(mask, order[..|order| - 1]);
    }
  }

  /** One more entry is counted in its own bucket, once. */
  lemma {:induction false} SumOfMore(es: seq<IndexEntry>, mask: bv32, order: seq<BucketNr>)
    requires es != [] && Distinct(order)
    ensures Sum(es, mask, order) == Sum(es[1..], mask, order) + if BucketOf(es[0].val, mask) in order then 1 else 0
  {
    hide BucketOf;
    if order != [] {
      var n := |order| - 1;
      SumOfMore(es, mask, order[..n]);
      assert order == order[..n] + [order[n]];
    }
  }

  /** Buckets that cover all the entries hold all of them. */
  lemma {:induction false} SumIsAll(es: seq<IndexEntry>, mask: bv32, order: seq<BucketNr>)
    requires Distinct(order) && forall e :: e in es ==> BucketOf(e.val, mask) in order
    ensures Sum(es, mask, order) == |es|
  {
    hide BucketOf;
    if es == [] {
      SumOfNone(mask, order);
    } else {
      SumIsAll(es[1..], mask, order);
      SumOfMore(es, mask, order);
    }
  }

  lemma SumNext(es: seq<IndexEntry>, mask: bv32, order: seq<BucketNr>, k: nat)
    requires k < |order|
    ensures Sum(es, mask, order[..k + 1]) == Sum(es, mask, order[..k]) + |InBucket(es, mask, order[k])|
    ensures SumThinned(es, mask, order[..k + 1]) ==
      SumThinned(es, mask, order[..k]) + |Thinned(InBucket(es, mask, order[k]))|
  {
    assert order[..k + 1][..k] == order[..k];
  }

  lemma CulledOne(pool: seq<Slot>, hash: map<BucketNr, int>, mask: bv32, es: seq<IndexEntry>, done: set<BucketNr>,
      after: seq<Slot>, i: BucketNr)
    requires Culled(pool, hash, mask, es, done) && i !in done && |after| == |pool| && Pooled(after, mask)
    requires forall x {:trigger after[x]} :: 0 <= x < |pool| ==> after[x].entry == pool[x].entry
    requires forall x {:trigger after[x]} :: 0 <= x < |pool| && BucketOf(after[x].entry.val, mask) != i ==>
      after[x] == pool[x]
    requires Chain(after, Head(hash, i)) == Thinned(InBucket(es, mask, i))
    ensures Culled(after, hash, mask, es, done + {i})
  {
    hide BucketOf, Thinned, InBucket, Chain, Pooled;
    forall j: BucketNr | j != i ensures Chain(after, Head(hash, j)) == Chain(pool, Head(hash, j)) {
      ChainSame(pool, after, mask, Head(hash, j), j);
    }
  }

  lemma CulledSkip(pool: seq<Slot>, hash: map<BucketNr, int>, mask: bv32, es: seq<IndexEntry>, done: set<BucketNr>,
      i: BucketNr)
    requires Culled(pool, hash, mask, es, done) && |InBucket(es, mask, i)| <= HASH_LIMIT
    ensures Culled(pool, hash, mask, es, done + {i})
  {
    hide BucketOf, InBucket, Chain, Pooled;
  }

  lemma CulledStarts(pool: seq<Slot>, hash: map<BucketNr, int>, counts: map<BucketNr, int>, mask: bv32,
      es: seq<IndexEntry>)
    requires Filled(pool, hash, counts, mask, es)
    ensures Culled(pool, hash, mask, es, {}) && |pool| == |es|
    ensures forall i :: Count(counts, i) == |InBucket(es, mask, i)|
  {
  }

  /** A crowded bucket has a head. */
  lemma HasHead(pool: seq<Slot>, hash: map<BucketNr, int>, mask: bv32, es: seq<IndexEntry>, done: set<BucketNr>,
      i: BucketNr)
    requires Culled(pool, hash, mask, es, done) && i !in done && InBucket(es, mask, i) != []
    ensures i in hash && 0 <= hash[i] == Head(hash, i) < |pool| && BucketOf(pool[hash[i]].entry.val, mask) == i
    ensures Chain(pool, hash[i]) == InBucket(es, mask, i) && Pooled(pool, mask)
  {
    hide BucketOf, InBucket, Pooled;
  }

  /** The loop that limits every bucket; `entries` stays the number of entries left. */
  method CullAll(pool: array<Slot>, count: nat, hash: map<BucketNr, int>, counts: map<BucketNr, int>, mask: bv32,
      order: seq<BucketNr>, entries0: nat, ghost es: seq<IndexEntry>)
    returns (entries: int)
    requires count <= pool.Length && Filled(pool[..count], hash, counts, mask, es) && Distinct(order) &&
      entries0 == |es|
    modifies pool
    ensures Culled(pool[..count], hash, mask, es, set i | i in order)
    ensures entries == entries0 - Sum(es, mask, order) + SumThinned(es, mask, order)
  {
    hide Filled, Culled, InBucket, BucketOf, Chain, Pooled, Sum, SumThinned, Thinned;
    SumStarts(es, mask, order);
    CulledStarts(pool[..count], hash, counts, mask, es);
    entries := entries0;
    var k := 0;
    ghost var done: set<BucketNr> := {};
    while k < |order|
      invariant 0 <= k <= |order| && done == set i | i in order[..k]
      invariant Culled(pool[..count], hash, mask, es, done)
      invariant entries == entries0 - Sum(es, mask, order[..k]) + SumThinned(es, mask, order[..k])
    {
      var i := order[k];
      SumNext(es, mask, order, k);
      ThinnedCount(InBucket(es, mask, i));
      assert i !in done && order[..k + 1] == order[..k] + [i];
      if Count(counts, i) <= HASH_LIMIT {
        CulledSkip(pool[..count], hash, mask, es, done, i);
      } else {
        entries := entries - (Count(counts, i) - HASH_LIMIT);
        ghost var was := pool[..count];
        HasHead(was, hash, mask, es, done, i);
        CullBucket(pool, count, mask, hash[i], Count(counts, i), i);
        CulledOne(was, hash, mask, es, done, pool[..count], i);
      }
      done := done + {i};
      k := k + 1;
    }
    assert order[..k] == order;
  }

  // ---- Packing ------------------------------------------------------------------------------

  /** The bounds of a bucket in the packed entries. */
  datatype Span = Span(lo: nat, hi: nat)

  function Cut(packed: seq<IndexEntry>, spans: map<BucketNr, Span>, i: BucketNr): seq<IndexEntry> {
    if i in spans && spans[i].lo <= spans[i].hi <= |packed| then packed[spans[i].lo..spans[i].hi] else []
  }

  /** Copy the buckets one behind the other, each in order. */
  method Pack(pool: array<Slot>, count: nat, hash: map<BucketNr, int>, mask: bv32, order: seq<BucketNr>,
      ghost es: seq<IndexEntry>)
    returns (packed: seq<IndexEntry>, spans: map<BucketNr, Span>)
    requires count <= pool.Length && Culled(pool[..count], hash, mask, es, set i | i in order)
    ensures |packed| == SumThinned(es, mask, order)
    ensures forall i :: i in order ==> Cut(packed, spans, i) == Thinned(InBucket(es, mask, i))
    ensures forall i :: i !in order ==> Cut(packed, spans, i) == []
  {
    hide *;
    packed, spans := [], map[];
    var k := 0;
    PackedStarts(es, mask);
    CulledLinks(pool[..count], hash, mask, es, set i | i in order);
    assert forall x {:trigger pool[x]} :: 0 <= x < count ==> pool[x] == pool[..count][x];
    SumStarts(es, mask, order);
    while k < |order|
      invariant 0 <= k <= |order| && |packed| == SumThinned(es, mask, order[..k])
      invariant Packed(packed, spans, es, mask, order[..k])
    {
      var i := order[k];
      SumNext(es, mask, order, k);
      assert i in order;
      ChainCulled(pool[..count], hash, mask, es, (set b | b in order), i);
      var chain := Collect(pool, count, Head(hash, i));
      PackedNext(packed, spans, es, mask, order, k, chain);
      spans := spans[i := Span(|packed|, |packed| + |chain|)];
      packed := packed + chain;
      k := k + 1;
    }
    assert order[..k] == order;
    PackedAll(packed, spans, es, mask, order);
  }

  /** The buckets listed so far are packed. */
  ghost predicate Packed(packed: seq<IndexEntry>, spans: map<BucketNr, Span>, es: seq<IndexEntry>, mask: bv32,
      order: seq<BucketNr>)
  {
    && (forall i :: i in spans ==> spans[i].lo <= spans[i].hi <= |packed|)
    && (forall i :: i in spans <==> i in order)
    && (forall i :: i in order ==> Cut(packed, spans, i) == Thinned(InBucket(es, mask, i)))
  }

  lemma PackedStarts(es: seq<IndexEntry>, mask: bv32)
    ensures Packed([], map[], es, mask, [])
  {
  }

  lemma SumStarts(es: seq<IndexEntry>, mask: bv32, order: seq<BucketNr>)
    ensures order[..0] == [] && Sum(es, mask, []) == 0 && SumThinned(es, mask, []) == 0
  {
  }

  lemma PackedNext(packed: seq<IndexEntry>, spans: map<BucketNr, Span>, es: seq<IndexEntry>, mask: bv32,
      order: seq<BucketNr>, k: nat, chain: seq<IndexEntry>)
    requires k < |order| && Packed(packed, spans, es, mask, order[..k])
    requires chain == Thinned(InBucket(es, mask, order[k]))
    ensures Packed(packed + chain, spans[order[k] := Span(|packed|, |packed| + |chain|)], es, mask, order[..k + 1])
  {
    hide InBucket, Thinned, BucketOf;
    var spans' := spans[order[k] := Span(|packed|, |packed| + |chain|)];
    assert order[..k + 1] == order[..k] + [order[k]];
    forall i | i in order[..k + 1] ensures Cut(packed + chain, spans', i) == Thinned(InBucket(es, mask, i)) {
      if i != order[k] {
        assert Cut(packed + chain, spans', i) == Cut(packed, spans, i);
      }
    }
  }

  lemma PackedAll(packed: seq<IndexEntry>, spans: map<BucketNr, Span>, es: seq<IndexEntry>, mask: bv32,
      order: seq<BucketNr>)
    requires Packed(packed, spans, es, mask, order)
    ensures forall i :: i in order ==> Cut(packed, spans, i) == Thinned(InBucket(es, mask, i))
    ensures forall i :: i !in order ==> Cut(packed, spans, i) == []
  {
  }

  lemma CulledLinks(pool: seq<Slot>, hash: map<BucketNr, int>, mask: bv32, es: seq<IndexEntry>, done: set<BucketNr>)
    requires Culled(pool, hash, mask, es, done)
    ensures forall x {:trigger pool[x]} :: 0 <= x < |pool| ==> pool[x].next < x
  {
  }

  lemma ChainCulled(pool: seq<Slot>, hash: map<BucketNr, int>, mask: bv32, es: seq<IndexEntry>, done: set<BucketNr>,
      i: BucketNr)
    requires Culled(pool, hash, mask, es, done) && i in done
    ensures Head(hash, i) < |pool| && Chain(pool, Head(hash, i)) == Thinned(InBucket(es, mask, i))
  {
  }

  /** Follow the links of one bucket. */
  method Collect(pool: array<Slot>, count: nat, head: int) returns (chain: seq<IndexEntry>)
    requires count <= pool.Length && head < count
    requires forall x {:trigger pool[x]} :: 0 <= x < count ==> pool[x].next < x
    ensures chain == Chain(pool[..count], head)
  {
    chain := [];
    var entry := head;
    while entry >= 0
      invariant entry < count && chain + Chain(pool[..count], entry) == Chain(pool[..count], head)
      decreases entry
    {
      ChainStep(pool[..count], entry);
      chain := chain + [pool[entry].entry];
      entry := pool[entry].next;
    }
    assert chain + [] == chain;
  }

  // ---- The whole index ----------------------------------------------------------------------

  /** The bucket numbers in use, each once. */
  method ListBuckets(hash: map<BucketNr, int>) returns (order: seq<BucketNr>)
    ensures Distinct(order) && forall i :: i in order <==> i in hash
  {
    order := [];
    var left := hash.Keys;
    while left != {}
      invariant left <= hash.Keys && Distinct(order) && forall i :: i in order <==> i in hash && i !in left
      decreases |left|
    {
      var i :| i in left;
      order, left := order + [i], left - {i};
    }
  }

  /** How many blocks are indexed, and the mask that selects among the buckets. */
  method TableSize(bufsize: nat) returns (entries: nat, hmask: bv32)
    requires bufsize > 0
    ensures entries == BlockCount(bufsize) && MaskFits(hmask, entries)
  {
    entries := (bufsize - 1) / RABIN_WINDOW;
    if bufsize >= 0xffff_ffff {
      entries := 0xffff_fffe / RABIN_WINDOW;
    }
    var hsize := 16;
    ghost var k := 4;
    assert Pow2(4) == 16;
    while hsize < entries / 4
      invariant 16 <= hsize <= 0x1000_0000 && k >= 4 && hsize == Pow2(k)
      invariant k == 4 || Pow2(k - 1) < entries / 4
      decreases entries - hsize
    {
      hsize, k := 2 * hsize, k + 1;
    }
    hmask := (hsize - 1) as bv32;
    assert MaskOf(hmask, k) && EnoughBuckets(k, entries);
  }

  function Pow2(k: nat): nat {
    if k == 0 then 1 else 2 * Pow2(k - 1)
  }

  ghost predicate MaskOf(hmask: bv32, k: nat) {
    1 <= Pow2(k) <= 0x1_0000_0000 && hmask == (Pow2(k) - 1) as bv32
  }

  /** The least power of two, sixteen at least, that is not below a quarter of the blocks. */
  ghost predicate EnoughBuckets(k: nat, blocks: nat) {
    k >= 4 && Pow2(k) >= blocks / 4 && (k == 4 || Pow2(k - 1) < blocks / 4)
  }

  ghost predicate MaskFits(hmask: bv32, blocks: nat) {
    exists k :: MaskOf(hmask, k) && EnoughBuckets(k, blocks)
  }

  /** The blocks of a source that are indexed. */
  function BlockCount(bufsize: nat): nat
    requires bufsize > 0
  {
    (if bufsize >= 0xffff_ffff then 0xffff_fffe else bufsize - 1) / RABIN_WINDOW
  }

  /** Every bucket holds the entries of its hash values, thinned out if need be. */
  ghost predicate Indexes(t: Tables, index: DeltaIndex)
    requires t.Valid()
  {
    && index.src != [] && MaskFits(index.hashMask, BlockCount(|index.src|))
    && (var es := Blocks(t, index.src, 0, BlockCount(|index.src|));
        forall i :: index.bucket(i) == Thinned(InBucket(es, index.hashMask, i)))
  }

  /**
   * create_delta_index: nothing for an empty source; else every bucket holds the entries of its hash
   * values, all of them or HASH_LIMIT at even distances, in ascending order.
   */
  method CreateDeltaIndex(t: Tables, src: seq<byte>) returns (index: Option<DeltaIndex>)
    requires t.Valid()
    ensures index.None? <==> src == []
    ensures index.Some? ==> index.value.src == src && index.value.Sorted()
    ensures index.Some? && |src| < 0x1_0000_0000 ==> index.value.Valid()
    ensures index.Some? ==> Indexes(t, index.value)
  {
    if src == [] {
      return None;
    }
    var n, mask := TableSize(|src|);
    ghost var es := Blocks(t, src, 0, n);
    var pool, count, hash, counts, entries := Populate(t, src, n, mask);
    var order := ListBuckets(hash);
    BucketsInUse(pool[..count], hash, counts, mask, es);
    var left := CullAll(pool, count, hash, counts, mask, order, entries, es);
    var packed, spans := Pack(pool, count, hash, mask, order, es);
    SumIsAll(es, mask, order);
    assert |packed| == left;
    index := Some(DeltaIndex(src, mask, i => Cut(packed, spans, i)));
    IndexIsGood(t, index.value, n);
  }

  /** A bucket without a head has no entries. */
  lemma BucketsInUse(pool: seq<Slot>, hash: map<BucketNr, int>, counts: map<BucketNr, int>, mask: bv32,
      es: seq<IndexEntry>)
    requires Filled(pool, hash, counts, mask, es)
    ensures forall i :: i !in hash ==> Thinned(InBucket(es, mask, i)) == []
    ensures forall e :: e in es ==> BucketOf(e.val, mask) in hash
    ensures |pool| == |es|
  {
    hide BucketOf;
    forall i | i !in hash ensures InBucket(es, mask, i) == [] {
      assert Head(hash, i) == -1;
      assert Chain(pool, -1) == [];
    }
    forall e | e in es ensures BucketOf(e.val, mask) in hash {
      InBucketHas(es, mask, e);
    }
  }

  lemma {:induction false} InBucketHas(es: seq<IndexEntry>, mask: bv32, e: IndexEntry)
    requires e in es
    ensures e in InBucket(es, mask, BucketOf(e.val, mask))
  {
    hide BucketOf;
    if e != es[0] {
      InBucketHas(es[1..], mask, e);
    }
  }

  /** The buckets ascend and point into the source. */
  lemma IndexIsGood(t: Tables, index: DeltaIndex, n: nat)
    requires t.Valid() && (n > 0 ==> RABIN_WINDOW * n < |index.src|)
    requires forall i :: index.bucket(i) == Thinned(InBucket(Blocks(t, index.src, 0, n), index.hashMask, i))
    ensures index.Sorted() && (|index.src| < 0x1_0000_0000 ==> index.Valid())
  {
    var es := Blocks(t, index.src, 0, n);
    BlocksAscend(t, index.src, 0, n);
    forall i ensures Ascending(index.bucket(i)) && forall e :: e in index.bucket(i) ==> e.ptr <= |index.src| {
      InBucketAscends(es, index.hashMask, i);
      ThinnedAscends(InBucket(es, index.hashMask, i));
      hide Thinned, InBucket, Blocks, BucketOf, Ascending;
      forall e | e in index.bucket(i) ensures e.ptr <= |index.src| {
        assert IsBlock(t, index.src, e);
      }
    }
  }

  /** A source of at most sixteen bytes has no block to index. */
  lemma ShortSourceOffersNothing(t: Tables, index: DeltaIndex)
    requires t.Valid() && Indexes(t, index)
    ensures |index.src| <= RABIN_WINDOW ==> forall trg: seq<byte> :: OffersNothing(index, trg)
  {
    hide Thinned, BucketOf;
    if |index.src| <= RABIN_WINDOW {
      NoBlocks(t, index.src, 0);
      ThinnedCount([]);
    }
  }

  // ---- What the index is for ----------------------------------------------------------------

  lemma {:induction false} InBucketIs(es: seq<IndexEntry>, mask: bv32, i: BucketNr, e: IndexEntry)
    ensures e in InBucket(es, mask, i) ==> e in es && BucketOf(e.val, mask) == i
  {
    hide BucketOf;
    if es != [] {
      InBucketIs(es[1..], mask, i, e);
    }
  }

  lemma ThinnedIn(es: seq<IndexEntry>, e: IndexEntry)
    requires e in Thinned(es)
    ensures e in es
  {
    if |es| > HASH_LIMIT {
      var k :| 0 <= k < HASH_LIMIT && KeptAt(es, k) == e;
      PlaceInRange(k, |es|);
    }
  }

  lemma BlockIsWindow(t: Tables, src: seq<byte>, e: IndexEntry)
    requires t.Valid() && IsBlock(t, src, e)
    ensures RABIN_WINDOW <= e.ptr < |src| && e.val == Hash(t, src[e.ptr - 15..e.ptr + 1])
  {
    hide Hash;
  }

  lemma BlockCountFits(n: nat)
    requires n > 0
    ensures BlockCount(n) > 0 ==> RABIN_WINDOW * BlockCount(n) < n
  {}

  /** Every entry stands in the bucket of the hash of the sixteen bytes up to it. */
  lemma IndexIsHashed(t: Tables, index: DeltaIndex)
    requires t.Valid() && Indexes(t, index)
    ensures HashedBy(t, index)
  {
    var n, es := BlockCount(|index.src|), Blocks(t, index.src, 0, BlockCount(|index.src|));
    BlockCountFits(|index.src|);
    BlocksAscend(t, index.src, 0, n);
    hide Hash, Blocks, Thinned, InBucket, BucketOf, IsBlock, Ascending, Tables.Valid, BlockCount;
    forall val: bv32, e | e in index.Bucket(val)
      ensures e in index.Bucket(e.val) && RABIN_WINDOW <= e.ptr < |index.src|
      ensures RABIN_WINDOW <= e.ptr < |index.src| ==> e.val == Hash(t, index.src[e.ptr - 15..e.ptr + 1])
    {
      var i := BucketOf(val, index.hashMask);
      ThinnedIn(InBucket(es, index.hashMask, i), e);
      InBucketIs(es, index.hashMask, i, e);
      BlockIsWindow(t, index.src, e);
    }
  }

  lemma ThinnedFirst(es: seq<IndexEntry>)
    requires es != []
    ensures Thinned(es) != [] && Thinned(es)[0] == es[0]
  {
    assert Place(0, |es|) == 0;
  }

  lemma InBucketFirst(es: seq<IndexEntry>, mask: bv32)
    requires es != []
    ensures var b := InBucket(es, mask, BucketOf(es[0].val, mask)); b != [] && b[0] == es[0]
  {
    hide BucketOf;
  }

  lemma FirstBlock(t: Tables, src: seq<byte>, n: nat)
    requires t.Valid() && 0 < n && RABIN_WINDOW * n < |src|
    ensures |src| >= 17 && Blocks(t, src, 0, n) != []
    ensures Blocks(t, src, 0, n)[0] == IndexEntry(RABIN_WINDOW, Hash(t, src[1..17]))
  {
    hide Hash, Tables.Valid;
  }

  /** The first block of the source comes first in its bucket, however crowded that is. */
  lemma FirstBlockFirst(t: Tables, index: DeltaIndex)
    requires t.Valid() && Indexes(t, index) && |index.src| >= 17
    ensures var h := Hash(t, index.src[1..17]);
      index.Bucket(h) != [] && index.Bucket(h)[0] == IndexEntry(RABIN_WINDOW, h)
  {
    var n, es := BlockCount(|index.src|), Blocks(t, index.src, 0, BlockCount(|index.src|));
    BlockCountFits(|index.src|);
    FirstBlock(t, index.src, n);
    InBucketFirst(es, index.hashMask);
    ThinnedFirst(InBucket(es, index.hashMask, BucketOf(es[0].val, index.hashMask)));
    hide Hash, Blocks, Thinned, InBucket, BucketOf, Tables.Valid;
  }

  lemma IndexedSelf(t: Tables, index: DeltaIndex, trg: seq<byte>)
    requires t.Valid() && Indexes(t, index) && index.src == trg && Matching(t) && |trg| >= 20
    ensures SelfIndexed(t, index, trg)
  {
    hide Hash, Matching, Indexes, HashedBy, DeltaIndex.Bucket;
    IndexIsHashed(t, index);
    FirstBlockFirst(t, index);
  }

  /**
   * diff_delta: a delta made with an index made on the way. For a source too short to be indexed, or
   * without a byte of the target, it overruns its buffer exactly if the target as literals reaches the
   * last length. With tables that match, a round that begins where the target agrees with the window of
   * an entry and three more bytes copies at least four, and a target equal to the source takes seven
   * bytes for each 64KB begun, besides the headers.
   */
  method DiffDelta(t: Tables, src: seq<byte>, trg: seq<byte>, maxSize: nat)
    returns (delta: Option<seq<byte>>, overrun: bool, ghost index: Option<DeltaIndex>, ghost places: seq<nat>)
    requires t.Valid() && |src| < 0x1_0000_0000 && |trg| < 0x1_0000_0000
    ensures delta.Some? ==> PatchDelta(src, delta.value) == Some(trg)
    ensures delta.Some? && maxSize != 0 ==> |delta.value| <= maxSize
    ensures maxSize == 0 || maxSize >= 12 + 2 * |trg| ==> (delta.Some? <==> src != [] && trg != [] && !overrun)
    ensures overrun ==> delta.None? && !SizesFit(|trg|, maxSize)
    ensures src != [] && trg != [] && Unlimited(maxSize) && FewestBytes(src, trg) + MAX_OP_SIZE >= LAST ==> overrun
    ensures (0 < |src| <= RABIN_WINDOW || (src != [] && forall b :: b in trg ==> b !in src)) && trg != [] ==>
      (overrun <==> Unlimited(maxSize) && LiteralSize(src, trg, |trg|) + MAX_OP_SIZE >= LAST)
    ensures index.None? <==> src == []
    ensures index.Some? ==>
      index.value.src == src && Indexes(t, index.value) && HashedBy(t, index.value) && index.value.Sorted()
    ensures delta.Some? ==> index.Some? && Covered(t, index.value, trg, places)
    ensures Matching(t) && src == trg && |src| >= 20 ==>
      && !overrun && (maxSize == 0 || maxSize >= SelfBound(src) ==> delta.Some?)
      && (delta.Some? ==> |delta.value| <= SelfBound(src))
  {
    hide *;
    places := [];
    var made := CreateDeltaIndex(t, src);
    index := made;
    if made.None? {
      return None, false, None, [];
    }
    IndexIsHashed(t, made.value);
    if Matching(t) && src == trg && |src| >= 20 {
      IndexedSelf(t, made.value, trg);
    }
    ShortSourceOffersNothing(t, made.value);
    if forall b :: b in trg ==> b !in src {
      NothingInCommon(made.value, trg);
    }
    delta, overrun, places := CreateDelta(t, made.value, trg, maxSize);
  }
}
